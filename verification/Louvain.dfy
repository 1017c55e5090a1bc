/** Community detection by moving labels, for any gain function whatever. */
module Louvain {
  import opened Sequences
  import opened Digraph
  import opened Undirected
  import opened Sorting
  import opened EdgeCuts

  const MAX_PASSES := 16
  const LEAST_GAIN := 0.000000000001

  /** Every node carries the number of a node it is linked to. */
  ghost predicate LabelsLinked(g: UnGraph, community: seq<nat>) {
    |community| == |g.weights| && forall i: nat :: i < |community| ==> Linked(g.links, i, community[i])
  }

  lemma TakeNeighbourLabel(g: UnGraph, community: seq<nat>, node: nat, neighbour: nat)
    requires LabelsLinked(g, community) && node < |community| && neighbour < |community|
    requires Joined(g.links, node, neighbour)
    ensures LabelsLinked(g, community[node := community[neighbour]])
  {
    JoinedIsLinked(g.links, node, neighbour);
    LinkedIsTransitive(g.links, node, neighbour, community[neighbour]);
  }

  /** The node's own label, or one with enough gain among its neighbours'; and no neighbour's label gains more. */
  ghost predicate IsBest(g: UnGraph, gain: (seq<nat>, nat, nat) -> real, community: seq<nat>, node: nat, best: nat)
    requires node < |community|
  {
    && (best == community[node]
        || (gain(community, node, best) > 0.000000000001
            && exists nb: nat :: nb < |community| && Joined(g.links, node, nb) && community[nb] == best))
    && (forall nb: nat :: nb < |community| && Joined(g.links, node, nb) && community[nb] != community[node] ==>
          gain(community, node, community[nb])
            <= if best == community[node] then 0.000000000001 else gain(community, node, best))
  }

  /** The best label among those of the neighbours, or the current one if no gain is large enough. */
  method BestLabel(g: UnGraph, adj: map<nat, seq<nat>>, community: seq<nat>, node: nat,
                   gain: (seq<nat>, nat, nat) -> real)
    returns (bestComm: nat)
    requires g.Valid() && IsNeighbourMap(g.links, adj) && |community| == |g.weights| && node < |community|
    ensures IsBest(g, gain, community, node, bestComm)
  {
    var nbrs := if node in adj then adj[node] else [];
    forall nb | nb in nbrs ensures nb < |community| {
      assert Joined(g.links, node, nb);
    }
    var neighbourComms := set nb | nb in nbrs && nb < |community| :: community[nb];
    bestComm := community[node];
    var bestGain := LEAST_GAIN;
    var rest := neighbourComms;
    while rest != {}
      invariant rest <= neighbourComms
      invariant bestComm == community[node]
        || (bestComm in neighbourComms && bestGain == gain(community, node, bestComm))
      invariant bestComm == community[node] ==> bestGain == LEAST_GAIN
      invariant bestGain >= LEAST_GAIN
      invariant bestComm != community[node] ==> bestGain > LEAST_GAIN
      invariant forall c :: c in neighbourComms - rest && c != community[node] ==> gain(community, node, c) <= bestGain
      decreases rest
    {
      var comm :| comm in rest;
      rest := rest - {comm};
      if comm != community[node] {
        var value := gain(community, node, comm);
        if value > bestGain {
          bestGain, bestComm := value, comm;
        }
      }
    }
    forall nb: nat | nb < |community| && Joined(g.links, node, nb) ensures community[nb] in neighbourComms {
      assert node in adj && nb in adj[node];
    }
  }

  // ---- passes ----

  /** A node's turn: it takes its best label, and every other node keeps its own. */
  ghost predicate IsTurn(g: UnGraph, gain: (seq<nat>, nat, nat) -> real,
                         before: seq<nat>, node: nat, after: seq<nat>)
  {
    && node < |before| == |after| == |g.weights|
    && IsBest(g, gain, before, node, after[node])
    && after == before[node := after[node]]
  }

  /** The labellings before, between and after the turns of a pass. */
  ghost predicate IsPass(g: UnGraph, gain: (seq<nat>, nat, nat) -> real, turns: seq<seq<nat>>) {
    && |turns| == |g.weights| + 1 && |turns[0]| == |g.weights|
    && forall node: nat :: node < |g.weights| ==> IsTurn(g, gain, turns[node], node, turns[node + 1])
  }

  /** Nobody moved. */
  ghost predicate IsIdle(turns: seq<seq<nat>>) {
    forall i :: 0 <= i < |turns| - 1 ==> turns[i + 1] == turns[i]
  }

  /** Passes that start with every node on its own, each beginning where a pass with a move ended. */
  ghost predicate IsHistory(g: UnGraph, gain: (seq<nat>, nat, nat) -> real, passes: seq<seq<seq<nat>>>) {
    && (forall p :: 0 <= p < |passes| ==> IsPass(g, gain, passes[p]))
    && (passes != [] ==> passes[0][0] == seq(|g.weights|, i => i))
    && (forall p :: 0 <= p < |passes| - 1 ==> !IsIdle(passes[p]) && passes[p + 1][0] == passes[p][|g.weights|])
  }

  /** All the passes there are: up to the first one without a move, but no more than sixteen. */
  ghost predicate IsWhole(g: UnGraph, gain: (seq<nat>, nat, nat) -> real, passes: seq<seq<seq<nat>>>) {
    && IsHistory(g, gain, passes)
    && 0 < |passes| <= 16
    && (IsIdle(passes[|passes| - 1]) || |passes| == 16)
  }

  ghost function Outcome(g: UnGraph, gain: (seq<nat>, nat, nat) -> real, passes: seq<seq<seq<nat>>>): (r: seq<nat>)
    requires IsWhole(g, gain, passes)
  {
    passes[|passes| - 1][|g.weights|]
  }

  /** No node would gain by the label of a neighbour. */
  ghost predicate IsStable(g: UnGraph, gain: (seq<nat>, nat, nat) -> real, community: seq<nat>) {
    forall node: nat, nb: nat ::
      node < |community| && nb < |community| && Joined(g.links, node, nb) && community[nb] != community[node] ==>
        gain(community, node, community[nb]) <= 0.000000000001
  }

  lemma {:induction false} IdleIsConstant(turns: seq<seq<nat>>, i: nat)
    requires IsIdle(turns) && i < |turns|
    ensures turns[i] == turns[0]
  {
    if i > 0 {
      IdleIsConstant(turns, i - 1);
    }
  }

  lemma {:induction false} StableStays(g: UnGraph, gain: (seq<nat>, nat, nat) -> real, turns: seq<seq<nat>>, i: nat)
    requires IsPass(g, gain, turns) && IsStable(g, gain, turns[0]) && i < |turns|
    ensures turns[i] == turns[0]
  {
    if i > 0 {
      StableStays(g, gain, turns, i - 1);
      assert IsTurn(g, gain, turns[i - 1], i - 1, turns[i]);
    }
  }

  /** A pass makes no move exactly if it starts from a stable labelling. */
  lemma IdleIffStable(g: UnGraph, gain: (seq<nat>, nat, nat) -> real, turns: seq<seq<nat>>)
    requires IsPass(g, gain, turns)
    ensures IsIdle(turns) <==> IsStable(g, gain, turns[0])
  {
    if IsIdle(turns) {
      forall node: nat, nb: nat | node < |turns[0]| && nb < |turns[0]| && Joined(g.links, node, nb)
        && turns[0][nb] != turns[0][node]
        ensures gain(turns[0], node, turns[0][nb]) <= 0.000000000001
      {
        IdleIsConstant(turns, node);
        IdleIsConstant(turns, node + 1);
        assert IsTurn(g, gain, turns[node], node, turns[node + 1]);
      }
    }
    if IsStable(g, gain, turns[0]) {
      forall i | 0 <= i < |turns| - 1 ensures turns[i + 1] == turns[i] {
        StableStays(g, gain, turns, i);
        StableStays(g, gain, turns, i + 1);
      }
    }
  }

  /** A last pass without a move means that the outcome is stable; fewer than sixteen passes mean such a pass. */
  lemma StoppedEarlyIsStable(g: UnGraph, gain: (seq<nat>, nat, nat) -> real, passes: seq<seq<seq<nat>>>)
    requires IsWhole(g, gain, passes)
    ensures |passes| < 16 ==> IsIdle(passes[|passes| - 1])
    ensures IsIdle(passes[|passes| - 1]) ==> IsStable(g, gain, Outcome(g, gain, passes))
  {
    var last := passes[|passes| - 1];
    if IsIdle(last) {
      IdleIffStable(g, gain, last);
      IdleIsConstant(last, |g.weights|);
    }
  }

  /** One pass over the nodes, moving labels in place. */
  method Pass(g: UnGraph, adj: map<nat, seq<nat>>, gain: (seq<nat>, nat, nat) -> real, community: array<nat>)
    returns (moved: bool, ghost turns: seq<seq<nat>>)
    requires g.Valid() && IsNeighbourMap(g.links, adj) && LabelsLinked(g, community[..])
    modifies community
    ensures LabelsLinked(g, community[..])
    ensures IsPass(g, gain, turns) && turns[0] == old(community[..]) && turns[|g.weights|] == community[..]
    ensures moved <==> !IsIdle(turns)
  {
    hide LabelsLinked, IsBest;
    moved, turns := false, [community[..]];
    assert community.Length == |g.weights| by { LabelsFill(g, community[..]); }
    for node: nat := 0 to community.Length
      invariant LabelsLinked(g, community[..])
      invariant |turns| == node + 1 && turns[0] == old(community[..]) && turns[node] == community[..]
      invariant forall i: nat :: i < node ==> IsTurn(g, gain, turns[i], i, turns[i + 1])
      invariant moved <==> !IsIdle(turns)
    {
      var best := BestLabel(g, adj, community[..], node, gain);
      if best != community[node] {
        MoveKeepsLinked(g, gain, community[..], node, best);
        community[node] := best;
        moved := true;
      }
      assert community[..] == turns[node][node := best];
      IdleGrows(turns, community[..]);
      turns := turns + [community[..]];
    }
  }

  lemma LabelsFill(g: UnGraph, community: seq<nat>)
    requires LabelsLinked(g, community)
    ensures |community| == |g.weights|
  {
  }

  lemma IdleGrows(turns: seq<seq<nat>>, next: seq<nat>)
    requires turns != []
    ensures IsIdle(turns + [next]) <==> IsIdle(turns) && next == turns[|turns| - 1]
  {
    var longer := turns + [next];
    if IsIdle(longer) {
      assert longer[|turns|] == longer[|turns| - 1];
      forall i | 0 <= i < |turns| - 1 ensures turns[i + 1] == turns[i] {
        assert longer[i + 1] == longer[i];
      }
    }
  }

  lemma MoveKeepsLinked(g: UnGraph, gain: (seq<nat>, nat, nat) -> real, community: seq<nat>, node: nat, best: nat)
    requires LabelsLinked(g, community) && node < |community|
    requires IsBest(g, gain, community, node, best) && best != community[node]
    ensures LabelsLinked(g, community[node := best])
  {
    var nb: nat :| nb < |community| && Joined(g.links, node, nb) && community[nb] == best;
    TakeNeighbourLabel(g, community, node, nb);
  }

  /** Every node starts in a community of its own. */
  method OnTheirOwn(g: UnGraph, community: array<nat>)
    requires g.Valid() && community.Length == |g.weights|
    modifies community
    ensures LabelsLinked(g, community[..]) && community[..] == seq(|g.weights|, i => i)
  {
    for i: nat := 0 to community.Length
      invariant forall j: nat :: j < i ==> community[j] == j
    {
      community[i] := i;
    }
    forall i: nat | i < community.Length ensures Linked(g.links, i, community[i]) {
      LinkedToItself(g.links, i);
    }
  }

  lemma HistoryGrows(g: UnGraph, gain: (seq<nat>, nat, nat) -> real,
                     passes: seq<seq<seq<nat>>>, turns: seq<seq<nat>>)
    requires IsHistory(g, gain, passes) && IsPass(g, gain, turns)
    requires passes == [] ==> turns[0] == seq(|g.weights|, i => i)
    requires passes != [] ==> !IsIdle(passes[|passes| - 1]) && turns[0] == passes[|passes| - 1][|g.weights|]
    ensures IsHistory(g, gain, passes + [turns])
  {
  }

  /** Passes follow one another until one makes no move, at most MAX_PASSES. */
  method MoveLabels(g: UnGraph, gain: (seq<nat>, nat, nat) -> real, community: array<nat>)
    returns (ghost passes: seq<seq<seq<nat>>>)
    requires g.Valid() && community.Length == |g.weights|
    modifies community
    ensures LabelsLinked(g, community[..])
    ensures IsWhole(g, gain, passes) && community[..] == Outcome(g, gain, passes)
  {
    hide LabelsLinked, IsTurn, IsIdle, IsHistory, UnGraph.Valid;
    var adj := NeighbourMap(g.links);
    OnTheirOwn(g, community);
    passes := [];
    NoHistory(g, gain);
    for pass := 0 to MAX_PASSES
      invariant LabelsLinked(g, community[..])
      invariant |passes| == pass && IsHistory(g, gain, passes)
      invariant pass == 0 ==> community[..] == seq(|g.weights|, i => i)
      invariant pass > 0 ==> !IsIdle(passes[pass - 1]) && |passes[pass - 1]| == |g.weights| + 1
      invariant pass > 0 ==> passes[pass - 1][|g.weights|] == community[..]
    {
      var moved, turns := Pass(g, adj, gain, community);
      HistoryGrows(g, gain, passes, turns);
      passes := passes + [turns];
      if !moved {
        break;
      }
    }
  }

  lemma NoHistory(g: UnGraph, gain: (seq<nat>, nat, nat) -> real)
    ensures IsHistory(g, gain, [])
  {
  }

  // ---- grouping by label ----

  /** The names of the first k nodes whose label is among the given ones. */
  ghost function Labelled(weights: seq<Name>, community: seq<nat>, k: nat, labels: set<nat>): set<Name>
    requires k <= |weights| == |community|
  {
    set i: nat | i < k && community[i] in labels :: weights[i]
  }

  ghost predicate IsGrouping(weights: seq<Name>, community: seq<nat>, k: nat, groups: map<nat, seq<Name>>) {
    && k <= |weights| == |community|
    && (forall i: nat :: i < k ==> community[i] in groups)
    && (forall c :: c in groups ==>
          groups[c] != [] && Distinct(groups[c]) && Elements(groups[c]) == Labelled(weights, community, k, {c}))
  }

  lemma GroupOne(weights: seq<Name>, community: seq<nat>, k: nat, groups: map<nat, seq<Name>>)
    requires IsGrouping(weights, community, k, groups) && k < |weights| && Distinct(weights)
    ensures var c := community[k];
      IsGrouping(weights, community, k + 1, groups[c := (if c in groups then groups[c] else []) + [weights[k]]])
  {
    var own := community[k];
    var members := if own in groups then groups[own] else [];
    var groups' := groups[own := members + [weights[k]]];
    forall c | c in groups'
      ensures groups'[c] != [] && Distinct(groups'[c])
      ensures Elements(groups'[c]) == Labelled(weights, community, k + 1, {c})
    {
      if c == own {
        assert Elements(members) == Labelled(weights, community, k, {c});
        assert weights[k] !in Elements(members);
        AppendFresh(members, weights[k]);
      }
      assert Labelled(weights, community, k + 1, {c})
        == Labelled(weights, community, k, {c}) + (if c == own then {weights[k]} else {});
    }
  }

  method GroupByLabel(weights: seq<Name>, community: seq<nat>) returns (groups: map<nat, seq<Name>>)
    requires |community| == |weights| && Distinct(weights)
    ensures IsGrouping(weights, community, |weights|, groups)
  {
    groups := map[];
    for k := 0 to |weights|
      invariant IsGrouping(weights, community, k, groups)
    {
      GroupOne(weights, community, k, groups);
      var c := community[k];
      groups := groups[c := (if c in groups then groups[c] else []) + [weights[k]]];
    }
  }

  lemma LabelledApart(weights: seq<Name>, community: seq<nat>, labels: set<nat>, c: nat)
    requires |community| == |weights| && Distinct(weights) && c !in labels
    ensures Labelled(weights, community, |weights|, labels) !! Labelled(weights, community, |weights|, {c})
    ensures Labelled(weights, community, |weights|, labels) + Labelled(weights, community, |weights|, {c})
         == Labelled(weights, community, |weights|, labels + {c})
  {
  }

  /** The groups of a table, in whatever order it is iterated. */
  method GroupValues(weights: seq<Name>, community: seq<nat>, groups: map<nat, seq<Name>>)
    returns (values: seq<seq<Name>>)
    requires Distinct(weights) && IsGrouping(weights, community, |weights|, groups)
    ensures Distinct(Flatten(values)) && Elements(Flatten(values)) == Elements(weights)
    ensures forall v :: v in values ==> exists c :: c in groups && groups[c] == v
  {
    hide Distinct;
    values := [];
    var rest := groups.Keys;
    NothingIsDistinct();
    while rest != {}
      invariant rest <= groups.Keys
      invariant Distinct(Flatten(values))
      invariant Elements(Flatten(values)) == Labelled(weights, community, |weights|, groups.Keys - rest)
      invariant forall v :: v in values ==> exists c :: c in groups && groups[c] == v
      decreases rest
    {
      var c :| c in rest;
      LabelledApart(weights, community, groups.Keys - rest, c);
      assert groups.Keys - (rest - {c}) == (groups.Keys - rest) + {c};
      FlattenSplit(values, [groups[c]]);
      FlattenOne(groups[c]);
      AppendDisjoint(Flatten(values), groups[c]);
      rest := rest - {c};
      values := values + [groups[c]];
    }
    assert groups.Keys - {} == groups.Keys;
    forall n | n in Elements(weights) ensures n in Labelled(weights, community, |weights|, groups.Keys) {
      var i :| 0 <= i < |weights| && weights[i] == n;
      assert community[i] in groups;
    }
  }

  lemma NothingIsDistinct()
    ensures Distinct<Name>([])
  {
  }

  // ---- the result ----

  ghost predicate AllLinked(edges: seq<(Name, Name)>, c: seq<Name>) {
    forall a, b :: a in c && b in c ==> Linked(edges, a, b)
  }

  /** Every endpoint in exactly one community, no community across two connected components, largest first. */
  ghost predicate AreCommunities(edges: seq<(Name, Name)>, result: seq<seq<Name>>) {
    && multiset(Flatten(result)) == multiset(Endpoints(edges))
    && (forall c :: c in result ==> c != [] && AllLinked(edges, c))
    && (forall i, j :: 0 <= i < j < |result| ==> |result[i]| >= |result[j]|)
  }

  /** A trail of node numbers is a trail of names. */
  lemma LinkedNames(edges: seq<(Name, Name)>, g: UnGraph, i: nat, j: nat)
    requires g.Represents(edges) && i < |g.weights| && j < |g.weights| && Linked(g.links, i, j)
    ensures Linked(edges, g.weights[i], g.weights[j])
  {
    var w :| TrailBetween(g.links, w, i, j);
    forall k | 0 <= k < |w| ensures w[k] < |g.weights| {
      if k < |w| - 1 {
        assert Joined(g.links, w[k], w[k + 1]);
      }
    }
    var names := seq(|w|, k requires 0 <= k < |w| => g.weights[w[k]]);
    forall k | 0 <= k < |names| - 1 ensures Joined(edges, names[k], names[k + 1]) {
      JoinedNames(edges, g, w[k], w[k + 1]);
    }
    assert TrailBetween(edges, names, g.weights[i], g.weights[j]);
  }

  lemma JoinedNames(edges: seq<(Name, Name)>, g: UnGraph, i: nat, j: nat)
    requires g.Represents(edges) && i < |g.weights| && j < |g.weights| && Joined(g.links, i, j)
    ensures Joined(edges, g.weights[i], g.weights[j])
  {
    var l := if (i, j) in g.links then (i, j) else (j, i);
    var k :| 0 <= k < |g.links| && g.links[k] == l;
    assert edges[k] == (g.weights[l.0], g.weights[l.1]);
  }

  lemma GroupIsLinked(edges: seq<(Name, Name)>, g: UnGraph, community: seq<nat>, groups: map<nat, seq<Name>>, c: nat)
    requires g.Represents(edges) && LabelsLinked(g, community)
    requires IsGrouping(g.weights, community, |g.weights|, groups) && c in groups
    ensures AllLinked(edges, groups[c])
  {
    forall a, b | a in groups[c] && b in groups[c] ensures Linked(edges, a, b) {
      assert a in Elements(groups[c]) && b in Elements(groups[c]);
      var i: nat :| i < |g.weights| && community[i] in {c} && g.weights[i] == a;
      var j: nat :| j < |g.weights| && community[j] in {c} && g.weights[j] == b;
      LinkedIsSymmetric(g.links, j, c);
      LinkedIsTransitive(g.links, i, c, j);
      LinkedNames(edges, g, i, j);
    }
  }

  /** Every community is the set of nodes with one label. */
  ghost predicate AreLabelClasses(weights: seq<Name>, community: seq<nat>, result: seq<seq<Name>>) {
    && |community| == |weights|
    && forall c :: c in result ==> exists own: nat :: Elements(c) == Labelled(weights, community, |weights|, {own})
  }

  method LouvainCommunities(edges: seq<(Name, Name)>, gain: (seq<nat>, nat, nat) -> real)
    returns (result: seq<seq<Name>>, ghost g: UnGraph, ghost passes: seq<seq<seq<nat>>>)
    ensures AreCommunities(edges, result) && g.Represents(edges)
    ensures g.weights == [] ==> result == []
    ensures g.weights != [] ==>
      IsWhole(g, gain, passes) && AreLabelClasses(g.weights, Outcome(g, gain, passes), result)
  {
    hide Distinct, AllLinked, LabelsLinked, IsGrouping, Labelled, LargestFirst, IsWhole;
    var graph := BuildUnGraph(edges);
    g, passes := graph, [];
    assert Elements(graph.weights) == Endpoints(edges);
    if |graph.weights| == 0 {
      result := [];
      return;
    }
    var community := new nat[|graph.weights|];
    passes := MoveLabels(graph, gain, community);
    var groups := GroupByLabel(graph.weights, community[..]);
    var values := GroupValues(graph.weights, community[..], groups);
    forall v | v in values
      ensures v != [] && AllLinked(edges, v)
      ensures exists own: nat :: Elements(v) == Labelled(graph.weights, community[..], |graph.weights|, {own})
    {
      var c :| c in groups && groups[c] == v;
      GroupIsLinked(edges, graph, community[..], groups, c);
      GroupIsInhabited(graph.weights, community[..], groups, c);
    }
    DistinctMultiset(Flatten(values));
    LargestFirstSorts(values);
    result := LargestFirst(values);
  }

  lemma GroupIsInhabited(weights: seq<Name>, community: seq<nat>, groups: map<nat, seq<Name>>, c: nat)
    requires IsGrouping(weights, community, |weights|, groups) && c in groups
    ensures groups[c] != [] && Elements(groups[c]) == Labelled(weights, community, |weights|, {c})
  {
  }
}
