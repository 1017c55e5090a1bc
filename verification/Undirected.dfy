/** Import edges read in both directions. */
module Undirected {

  ghost predicate Joined<T>(edges: seq<(T, T)>, a: T, b: T) {
    (a, b) in edges || (b, a) in edges
  }

  ghost predicate IsNeighbourMap<T(!new)>(edges: seq<(T, T)>, adj: map<T, seq<T>>) {
    forall a, b :: (a in adj && b in adj[a]) <==> Joined(edges, a, b)
  }

  /** Every edge enters its two ends in each other's neighbour lists. */
  method NeighbourMap<T(==,!new)>(edges: seq<(T, T)>) returns (adj: map<T, seq<T>>)
    ensures IsNeighbourMap(edges, adj)
  {
    adj := map[];
    for k := 0 to |edges|
      invariant IsNeighbourMap(edges[..k], adj)
    {
      var (a, b) := edges[k];
      adj := adj[a := (if a in adj then adj[a] else []) + [b]];
      adj := adj[b := (if b in adj then adj[b] else []) + [a]];
      JoinedStep(edges, k);
    }
    assert edges[..|edges|] == edges;
  }

  lemma JoinedStep<T(!new)>(edges: seq<(T, T)>, k: nat)
    requires k < |edges|
    ensures forall x, y ::
      Joined(edges[..k + 1], x, y) <==> Joined(edges[..k], x, y) || (x, y) == edges[k] || (y, x) == edges[k]
  {
    assert edges[..k + 1] == edges[..k] + [edges[k]];
  }

  ghost predicate IsTrail<T>(edges: seq<(T, T)>, w: seq<T>) {
    |w| > 0 && forall i :: 0 <= i < |w| - 1 ==> Joined(edges, w[i], w[i + 1])
  }

  ghost predicate TrailBetween<T>(edges: seq<(T, T)>, w: seq<T>, a: T, b: T) {
    IsTrail(edges, w) && w[0] == a && w[|w| - 1] == b
  }

  /** Undirected reachability. */
  ghost predicate Linked<T(!new)>(edges: seq<(T, T)>, a: T, b: T) {
    exists w :: TrailBetween(edges, w, a, b)
  }

  lemma LinkedToItself<T(!new)>(edges: seq<(T, T)>, a: T)
    ensures Linked(edges, a, a)
  {
    assert TrailBetween(edges, [a], a, a);
  }

  lemma JoinedIsLinked<T(!new)>(edges: seq<(T, T)>, a: T, b: T)
    requires Joined(edges, a, b)
    ensures Linked(edges, a, b)
  {
    assert TrailBetween(edges, [a, b], a, b);
  }

  lemma LinkedIsTransitive<T(!new)>(edges: seq<(T, T)>, a: T, b: T, c: T)
    requires Linked(edges, a, b) && Linked(edges, b, c)
    ensures Linked(edges, a, c)
  {
    var v :| TrailBetween(edges, v, a, b);
    var w :| TrailBetween(edges, w, b, c);
    var u := v + w[1..];
    forall i | 0 <= i < |u| - 1 ensures Joined(edges, u[i], u[i + 1]) {
      if i >= |v| - 1 {
        assert u[i] == w[i - (|v| - 1)] && u[i + 1] == w[i - (|v| - 1) + 1];
      }
    }
    assert TrailBetween(edges, u, a, c);
  }

  lemma LinkedIsSymmetric<T(!new)>(edges: seq<(T, T)>, a: T, b: T)
    requires Linked(edges, a, b)
    ensures Linked(edges, b, a)
  {
    var w :| TrailBetween(edges, w, a, b);
    var r := seq(|w|, i requires 0 <= i < |w| => w[|w| - 1 - i]);
    forall i | 0 <= i < |r| - 1 ensures Joined(edges, r[i], r[i + 1]) {
      var j := |w| - 2 - i;
      assert Joined(edges, w[j], w[j + 1]);
    }
    assert TrailBetween(edges, r, b, a);
  }

  /** A set that no edge leaves holds the whole trail once it holds its first node. */
  lemma {:induction false} TrailStays<T>(edges: seq<(T, T)>, w: seq<T>, s: set<T>)
    requires IsTrail(edges, w) && w[0] in s
    requires forall e :: e in edges ==> (e.0 in s <==> e.1 in s)
    ensures w[|w| - 1] in s
  {
    if |w| > 1 {
      var last := |w| - 1;
      TrailStays(edges, w[..last], s);
      assert Joined(edges, w[last - 1], w[last]);
    }
  }
}
