/** The undirected projection of an import graph and its single-edge cut. */
module EdgeCuts {
  import opened Sequences
  import opened Digraph
  import opened Exploration
  import opened Undirected
  import opened Options

  /** A node list and index pairs, as the graph library stores them. Parallel links and loops are kept. */
  datatype UnGraph = UnGraph(weights: seq<Name>, links: seq<(nat, nat)>) {
    ghost predicate Valid() {
      Distinct(weights) && forall l :: l in links ==> l.0 < |weights| && l.1 < |weights|
    }

    /** Link k joins the nodes named by edge k. */
    ghost predicate Represents(edges: seq<(Name, Name)>) {
      && Valid() && |links| == |edges|
      && (forall k :: 0 <= k < |edges| ==> edges[k] == (weights[links[k].0], weights[links[k].1]))
      && (forall n :: n in weights <==> n in Endpoints(edges))
    }
  }

  ghost function Endpoints(edges: seq<(Name, Name)>): set<Name> {
    if edges == [] then {} else Endpoints(edges[..|edges| - 1]) + {edges[|edges| - 1].0, edges[|edges| - 1].1}
  }

  /** The number of edges with exactly one end in s; parallel edges count separately. */
  ghost function Crossing<T>(edges: seq<(T, T)>, s: set<T>): nat {
    if edges == [] then 0
    else
      var last := edges[|edges| - 1];
      Crossing(edges[..|edges| - 1], s) + (if (last.0 in s) != (last.1 in s) then 1 else 0)
  }

  // ---- building the graph ----

  /** The name-to-index table agrees with the node list. */
  ghost predicate IsIndex(weights: seq<Name>, index: map<Name, nat>) {
    && (forall n :: n in index <==> n in weights)
    && (forall n :: n in index ==> index[n] < |weights| && weights[index[n]] == n)
  }

  method AddNode(weights: seq<Name>, index: map<Name, nat>, name: Name)
    returns (weights': seq<Name>, index': map<Name, nat>, i: nat)
    requires Distinct(weights) && IsIndex(weights, index)
    ensures Distinct(weights') && IsIndex(weights', index')
    ensures weights <= weights' && i < |weights'| && weights'[i] == name
    ensures forall n :: n in weights' <==> n in weights || n == name
  {
    if name in index {
      weights', index', i := weights, index, index[name];
    } else {
      weights', index', i := weights + [name], index[name := |weights|], |weights|;
    }
  }

  lemma AddLink(edges: seq<(Name, Name)>, g: UnGraph, weights: seq<Name>, link: (nat, nat))
    requires edges != [] && g.Represents(edges[..|edges| - 1])
    requires Distinct(weights) && g.weights <= weights && link.0 < |weights| && link.1 < |weights|
    requires edges[|edges| - 1] == (weights[link.0], weights[link.1])
    requires forall n :: n in weights <==> n in g.weights || n == weights[link.0] || n == weights[link.1]
    ensures UnGraph(weights, g.links + [link]).Represents(edges)
  {
  }

  method BuildUnGraph(edges: seq<(Name, Name)>) returns (g: UnGraph)
    ensures g.Represents(edges)
  {
    g := UnGraph([], []);
    var index: map<Name, nat> := map[];
    for k := 0 to |edges|
      invariant IsIndex(g.weights, index) && g.Represents(edges[..k])
    {
      var weights, index1, fi := AddNode(g.weights, index, edges[k].0);
      var weights2, index2, ti := AddNode(weights, index1, edges[k].1);
      assert edges[..k + 1][..k] == edges[..k];
      AddLink(edges[..k + 1], g, weights2, (fi, ti));
      g, index := UnGraph(weights2, g.links + [(fi, ti)]), index2;
    }
    assert edges[..|edges|] == edges;
  }

  // ---- cutting ----

  function WithoutLink(links: seq<(nat, nat)>, k: nat): seq<(nat, nat)>
    requires k < |links|
  {
    links[..k] + links[k + 1..]
  }

  lemma {:induction false} CrossingZero<T>(edges: seq<(T, T)>, s: set<T>)
    ensures Crossing(edges, s) == 0 <==> forall e :: e in edges ==> (e.0 in s <==> e.1 in s)
  {
    if edges != [] {
      var last := |edges| - 1;
      CrossingZero(edges[..last], s);
      assert edges == edges[..last] + [edges[last]];
    }
  }

  lemma {:induction false} CrossingConcat<T>(a: seq<(T, T)>, b: seq<(T, T)>, s: set<T>)
    ensures Crossing(a + b, s) == Crossing(a, s) + Crossing(b, s)
  {
    if b == [] {
      assert a + b == a;
    } else {
      var last := |b| - 1;
      assert (a + b)[..|a + b| - 1] == a + b[..last];
      CrossingConcat(a, b[..last], s);
    }
  }

  lemma CrossingWithout(links: seq<(nat, nat)>, k: nat, s: set<nat>)
    requires k < |links|
    ensures Crossing(links, s)
         == Crossing(WithoutLink(links, k), s) + (if (links[k].0 in s) != (links[k].1 in s) then 1 else 0)
  {
    assert links == links[..k] + [links[k]] + links[k + 1..];
    CrossingConcat(links[..k] + [links[k]], links[k + 1..], s);
    CrossingConcat(links[..k], [links[k]], s);
    CrossingConcat(links[..k], links[k + 1..], s);
  }

  /** A closed set is one that no link crosses. */
  lemma ClosedMeansUncrossed(links: seq<(nat, nat)>, adj: map<nat, seq<nat>>, all: set<nat>, s: set<nat>)
    requires IsNeighbourMap(links, adj) && forall l :: l in links ==> l.0 in all && l.1 in all
    ensures IsClosed(adj, all, s) <==> Crossing(links, s) == 0
  {
    CrossingZero(links, s);
    if IsClosed(adj, all, s) {
      forall e | e in links ensures e.0 in s <==> e.1 in s {
        assert Joined(links, e.0, e.1) && Joined(links, e.1, e.0);
      }
    }
  }

  ghost predicate ProperSide(n: nat, s: set<nat>) {
    s != {} && s < Indices(n)
  }

  /** One search from node 0 with link k taken away. */
  method ReachWithout(g: UnGraph, k: nat) returns (reachable: set<nat>)
    requires g.Valid() && k < |g.links|
    ensures 0 in reachable && reachable <= Indices(|g.weights|)
    ensures Crossing(WithoutLink(g.links, k), reachable) == 0
    ensures forall s: set<nat> :: 0 in s && Crossing(WithoutLink(g.links, k), s) == 0 ==> reachable <= s
  {
    var links := WithoutLink(g.links, k);
    var adj := NeighbourMap(links);
    var all := Indices(|g.weights|);
    assert g.links[k] in g.links;
    var order;
    reachable, order := Explore(adj, all, {}, 0);
    ClosedMeansUncrossed(links, adj, all, reachable);
    forall s: set<nat> | 0 in s && Crossing(links, s) == 0 ensures reachable <= s {
      ClosedMeansUncrossed(links, adj, all, s);
    }
  }

  /** Taking link k away leaves some proper side, one that holds node 0, uncrossed. */
  ghost predicate Noticed(g: UnGraph, k: nat, side: set<nat>)
    requires k < |g.links|
  {
    0 in side && side < Indices(|g.weights|) && Crossing(WithoutLink(g.links, k), side) == 0
  }

  /** If some split is crossed at most once, then taking some link away leaves node 0 short of the whole graph. */
  lemma SplitIsNoticed(g: UnGraph, s: set<nat>) returns (k: nat, side: set<nat>)
    requires g.Valid() && |g.links| >= 1 && ProperSide(|g.weights|, s) && Crossing(g.links, s) <= 1
    ensures k < |g.links| && Noticed(g, k, side)
  {
    var all := Indices(|g.weights|);
    side := if 0 in s then s else all - s;
    OtherSide(g.links, all, s);
    CrossingZero(g.links, side);
    if Crossing(g.links, side) == 0 {
      k := 0;
    } else {
      var e :| e in g.links && (e.0 in side) != (e.1 in side);
      k :| 0 <= k < |g.links| && g.links[k] == e;
    }
    CrossingWithout(g.links, k, side);
  }

  lemma {:induction false} OtherSide(links: seq<(nat, nat)>, all: set<nat>, s: set<nat>)
    requires forall l :: l in links ==> l.0 in all && l.1 in all
    ensures Crossing(links, all - s) == Crossing(links, s)
  {
    if links != [] {
      var last := |links| - 1;
      assert links[last] in links;
      OtherSide(links[..last], all, s);
    }
  }

  // ---- the result, in terms of names ----

  /** Two non-empty sides that hold every endpoint exactly once. */
  ghost predicate IsSplit(edges: seq<(Name, Name)>, p1: seq<Name>, p2: seq<Name>) {
    p1 != [] && p2 != [] && Distinct(p1 + p2) && Elements(p1) + Elements(p2) == Endpoints(edges)
  }

  ghost predicate IsConnected(edges: seq<(Name, Name)>) {
    forall a, b :: a in Endpoints(edges) && b in Endpoints(edges) ==> Linked(edges, a, b)
  }

  lemma {:induction false} SameCrossing(edges: seq<(Name, Name)>, g: UnGraph, names: set<Name>, s: set<nat>)
    requires |edges| == |g.links|
    requires forall l :: l in g.links ==> l.0 < |g.weights| && l.1 < |g.weights|
    requires forall k :: 0 <= k < |edges| ==> edges[k] == (g.weights[g.links[k].0], g.weights[g.links[k].1])
    requires forall i :: 0 <= i < |g.weights| ==> (g.weights[i] in names <==> i in s)
    ensures Crossing(edges, names) == Crossing(g.links, s)
    decreases |edges|
  {
    if edges != [] {
      var last := |edges| - 1;
      assert g.links[last] in g.links;
      SameCrossing(edges[..last], UnGraph(g.weights, g.links[..last]), names, s);
    }
  }

  /** A connected graph is crossed by every split. */
  lemma ConnectedIsCrossed(edges: seq<(Name, Name)>, names: set<Name>, a: Name, b: Name)
    requires Linked(edges, a, b) && a in names && b !in names
    ensures Crossing(edges, names) >= 1
  {
    CrossingZero(edges, names);
    if Crossing(edges, names) == 0 {
      var w :| TrailBetween(edges, w, a, b);
      TrailStays(edges, w, names);
    }
  }

  /** Being crossed by every split is being connected. */
  lemma CrossedIffConnected(edges: seq<(Name, Name)>)
    ensures (forall names :: {} < names < Endpoints(edges) ==> Crossing(edges, names) >= 1) <==> IsConnected(edges)
  {
    if IsConnected(edges) {
      forall names | {} < names < Endpoints(edges) ensures Crossing(edges, names) >= 1 {
        var a :| a in names;
        var b :| b in Endpoints(edges) && b !in names;
        ConnectedIsCrossed(edges, names, a, b);
      }
    }
    if forall names :: {} < names < Endpoints(edges) ==> Crossing(edges, names) >= 1 {
      forall a, b | a in Endpoints(edges) && b in Endpoints(edges) ensures Linked(edges, a, b) {
        var names := set x | x in Endpoints(edges) && Linked(edges, a, x);
        LinkedToItself(edges, a);
        LinkedSideIsUncrossed(edges, a, names);
        assert !({} < names < Endpoints(edges));
      }
    }
  }

  lemma LinkedSideIsUncrossed(edges: seq<(Name, Name)>, a: Name, names: set<Name>)
    requires forall x :: x in names <==> x in Endpoints(edges) && Linked(edges, a, x)
    ensures Crossing(edges, names) == 0
  {
    forall e | e in edges ensures e.0 in names <==> e.1 in names {
      EdgeEnds(edges, e);
      JoinedIsLinked(edges, e.0, e.1);
      JoinedIsLinked(edges, e.1, e.0);
      if e.0 in names {
        LinkedIsTransitive(edges, a, e.0, e.1);
      }
      if e.1 in names {
        LinkedIsTransitive(edges, a, e.1, e.0);
      }
    }
    CrossingZero(edges, names);
  }

  lemma {:induction false} EdgeEnds(edges: seq<(Name, Name)>, e: (Name, Name))
    requires e in edges
    ensures e.0 in Endpoints(edges) && e.1 in Endpoints(edges)
  {
    var last := |edges| - 1;
    if e != edges[last] {
      EdgeEnds(edges[..last], e);
    }
  }

  ghost function NameSet(weights: seq<Name>, s: set<nat>): set<Name> {
    set i | i in s && i < |weights| :: weights[i]
  }

  lemma AddName(weights: seq<Name>, s: set<nat>, names: seq<Name>, i: nat)
    requires Distinct(weights) && Distinct(names) && Elements(names) == NameSet(weights, s)
    requires i < |weights| && i !in s
    ensures Distinct(names + [weights[i]]) && Elements(names + [weights[i]]) == NameSet(weights, s + {i})
  {
    assert weights[i] !in NameSet(weights, s);
    AppendFresh(names, weights[i]);
  }

  lemma SplitSeparates<T>(p1: seq<T>, p2: seq<T>)
    requires Distinct(p1 + p2) && p2 != []
    ensures p2[0] !in p1
  {
    assert forall i :: 0 <= i < |p1| ==> (p1 + p2)[i] == p1[i];
    assert (p1 + p2)[|p1|] == p2[0];
  }

  /** The names of a set of nodes, in whatever order the set is iterated. */
  method NamesOf(weights: seq<Name>, s: set<nat>) returns (names: seq<Name>)
    requires Distinct(weights) && forall i :: i in s ==> i < |weights|
    ensures Distinct(names) && Elements(names) == NameSet(weights, s)
  {
    names := [];
    var rest := s;
    while rest != {}
      invariant rest <= s && Distinct(names) && Elements(names) == NameSet(weights, s - rest)
      decreases rest
    {
      var i :| i in rest;
      AddName(weights, s - rest, names, i);
      assert s - (rest - {i}) == (s - rest) + {i};
      rest := rest - {i};
      names := names + [weights[i]];
    }
    assert s - {} == s;
  }

  method OtherNames(weights: seq<Name>, s: set<nat>) returns (names: seq<Name>)
    requires Distinct(weights)
    ensures Distinct(names) && Elements(names) == NameSet(weights, Indices(|weights|) - s)
  {
    names := [];
    for k := 0 to |weights|
      invariant Distinct(names) && Elements(names) == NameSet(weights, Indices(k) - s)
    {
      assert Indices(k + 1) - s == (Indices(k) - s) + (if k in s then {} else {k});
      if k !in s {
        AddName(weights, Indices(k) - s, names, k);
        names := names + [weights[k]];
      }
    }
  }

  lemma SidesCover(edges: seq<(Name, Name)>, g: UnGraph, s: set<nat>)
    requires g.Represents(edges) && s <= Indices(|g.weights|)
    ensures NameSet(g.weights, s) + NameSet(g.weights, Indices(|g.weights|) - s) == Endpoints(edges)
    ensures NameSet(g.weights, s) !! NameSet(g.weights, Indices(|g.weights|) - s)
  {
    var t := Indices(|g.weights|) - s;
    forall n | n in Endpoints(edges) ensures n in NameSet(g.weights, s) + NameSet(g.weights, t) {
      var i :| 0 <= i < |g.weights| && g.weights[i] == n;
      assert i in s || i in t;
    }
  }

  lemma SidesSplit(edges: seq<(Name, Name)>, g: UnGraph, s: set<nat>, p1: seq<Name>, p2: seq<Name>)
    requires g.Represents(edges) && s <= Indices(|g.weights|)
    requires Distinct(p1) && Elements(p1) == NameSet(g.weights, s)
    requires Distinct(p2) && Elements(p2) == NameSet(g.weights, Indices(|g.weights|) - s)
    requires ProperSide(|g.weights|, s)
    ensures IsSplit(edges, p1, p2)
  {
    SidesCover(edges, g, s);
    var i :| i in s;
    assert g.weights[i] in Elements(p1);
    var j :| j in Indices(|g.weights|) && j !in s;
    assert g.weights[j] in Elements(p2);
    AppendDisjoint(p1, p2);
  }

  lemma SideCrossing(edges: seq<(Name, Name)>, g: UnGraph, s: set<nat>, k: nat)
    requires g.Represents(edges) && k < |edges| && Crossing(WithoutLink(g.links, k), s) == 0
    ensures Crossing(edges, NameSet(g.weights, s)) <= 1
  {
    CrossingWithout(g.links, k, s);
    SameCrossing(edges, g, NameSet(g.weights, s), s);
  }

  const USIZE_MAX: nat := 0xFFFF_FFFF_FFFF_FFFF

  ghost predicate IsCut(edges: seq<(Name, Name)>, r: (nat, seq<Name>, seq<Name>)) {
    r.0 == 1 && IsSplit(edges, r.1, r.2) && Crossing(edges, Elements(r.1)) <= 1
  }

  /** Tries every link once; keeps the first one whose removal cuts node 0 off from some node. */
  method SimpleMinCut(ghost edges: seq<(Name, Name)>, g: UnGraph) returns (r: Option<(nat, seq<Name>, seq<Name>)>)
    requires g.Represents(edges)
    ensures r.Some? ==> IsCut(edges, r.value)
    ensures r.None? ==> forall k, side :: 0 <= k < |g.links| ==> !Noticed(g, k, side)
  {
    hide IsSplit, Crossing, Indices, Distinct, WithoutLink;
    var bestCut := USIZE_MAX;
    r := None;
    if g.links == [] {
      return;
    }
    for k := 0 to |g.links|
      invariant if r.Some? then bestCut == 1 && IsCut(edges, r.value) else bestCut == USIZE_MAX
      invariant r.None? ==> forall j, side :: 0 <= j < k ==> !Noticed(g, j, side)
    {
      var reachable := ReachWithout(g, k);
      if |reachable| < |g.weights| {
        var cutValue := 1;
        if cutValue < bestCut {
          bestCut := cutValue;
          var p1 := NamesOf(g.weights, reachable);
          var p2 := OtherNames(g.weights, reachable);
          SmallIsProper(|g.weights|, reachable);
          SidesSplit(edges, g, reachable, p1, p2);
          SideCrossing(edges, g, reachable, k);
          if p1 != [] && p2 != [] {
            r := Some((bestCut, p1, p2));
          }
        }
      } else {
        FullReach(|g.weights|, reachable);
      }
    }
  }

  lemma SmallIsProper(n: nat, s: set<nat>)
    requires 0 in s && s <= Indices(n) && |s| < n
    ensures ProperSide(n, s)
  {
    IndicesCount(n);
    assert Indices(n) <= s ==> s == Indices(n);
  }

  lemma FullReach(n: nat, s: set<nat>)
    requires s <= Indices(n) && |s| >= n
    ensures s == Indices(n)
  {
    IndicesCount(n);
    SubsetIsNoLarger(Indices(n) - s, Indices(n));
    assert |Indices(n) - s| == |Indices(n)| - |s|;
  }

  /** The side p1 is crossed by `cut` edges and no split is crossed by fewer. */
  ghost predicate IsMinimumCut(edges: seq<(Name, Name)>, cut: nat, p1: seq<Name>) {
    && Crossing(edges, Elements(p1)) == cut
    && forall names :: {} < names < Endpoints(edges) ==> Crossing(edges, names) >= cut
  }

  /**
   * The single-edge cut. A result is a split crossed by at most one edge, and it is a minimum cut exactly if the
   * graph is connected; no result for two or more edges means every split is crossed twice.
   */
  method MinCut(edges: seq<(Name, Name)>) returns (r: Option<(nat, seq<Name>, seq<Name>)>)
    ensures |edges| < 2 ==> r.None?
    ensures r.Some? ==> var (cut, p1, p2) := r.value;
      && IsSplit(edges, p1, p2) && Crossing(edges, Elements(p1)) <= cut == 1
      && (IsMinimumCut(edges, cut, p1) <==> IsConnected(edges))
    ensures r.None? && |edges| >= 2 ==>
      forall names :: {} < names < Endpoints(edges) ==> Crossing(edges, names) >= 2
  {
    if |edges| < 2 {
      return None;
    }
    var g := BuildUnGraph(edges);
    r := SimpleMinCut(edges, g);
    if r.Some? {
      var p1, p2 := r.value.1, r.value.2;
      CrossedIffConnected(edges);
      if IsConnected(edges) {
        SplitSeparates(p1, p2);
        ConnectedIsCrossed(edges, Elements(p1), p1[0], p2[0]);
      }
    } else {
      forall names | {} < names < Endpoints(edges) ensures Crossing(edges, names) >= 2 {
        UnnoticedIsCrossedTwice(edges, g, names);
      }
    }
  }

  /**
   * Two edges without a common end: some split is crossed by neither, so there is a result, and its value 1 is not
   * the minimum, whichever side is reported.
   */
  lemma TwoIslands(a: Name, b: Name, c: Name, d: Name)
    requires {a, b} !! {c, d}
    ensures var edges := [(a, b), (c, d)];
      && {} < {a, b} < Endpoints(edges) && Crossing(edges, {a, b}) == 0
      && !IsConnected(edges)
      && forall p1 :: !IsMinimumCut(edges, 1, p1)
  {
    var edges := [(a, b), (c, d)];
    assert edges[..1] == [(a, b)] && [(a, b)][..0] == [];
    assert Endpoints([(a, b)]) == {a, b};
    assert Endpoints(edges) == {a, b} + {c, d} && c in {c, d};
    CrossingZero(edges, {a, b});
    if Linked(edges, a, c) {
      ConnectedIsCrossed(edges, {a, b}, a, c);
    }
  }

  lemma UnnoticedIsCrossedTwice(edges: seq<(Name, Name)>, g: UnGraph, names: set<Name>)
    requires edges != [] && g.Represents(edges) && {} < names < Endpoints(edges)
    requires forall k, side :: 0 <= k < |g.links| ==> !Noticed(g, k, side)
    ensures Crossing(edges, names) >= 2
  {
    var s: set<nat> := set i: nat | i in Indices(|g.weights|) && g.weights[i] in names;
    assert forall i :: 0 <= i < |g.weights| ==> i in Indices(|g.weights|);
    NamedSideIsProper(edges, g, names, s);
    SameCrossing(edges, g, names, s);
    if Crossing(g.links, s) <= 1 {
      var k, side := SplitIsNoticed(g, s);
    }
  }

  lemma NamedSideIsProper(edges: seq<(Name, Name)>, g: UnGraph, names: set<Name>, s: set<nat>)
    requires g.Represents(edges) && {} < names < Endpoints(edges)
    requires s <= Indices(|g.weights|) && forall i :: 0 <= i < |g.weights| ==> (i in s <==> g.weights[i] in names)
    ensures ProperSide(|g.weights|, s)
  {
    var n :| n in names;
    assert n in g.weights;
    var m :| m in Endpoints(edges) && m !in names;
    assert m in g.weights;
    var j :| 0 <= j < |g.weights| && g.weights[j] == m;
    assert j in Indices(|g.weights|);
  }
}
