/** Splitting an import graph in two: along a single-edge cut if there is one, else into halves of a search order. */
module Bisection {
  import opened Sequences
  import opened Digraph
  import opened Exploration
  import opened Cycles
  import opened EdgeCuts

  /** The node at position i has an edge from an earlier one. */
  ghost predicate IsReachedInto(g: ImportGraph, order: seq<Name>, i: nat)
    requires i < |order|
  {
    exists j :: 0 <= j < i && (order[j], order[i]) in g.edges
  }

  /** A new search starts at position i: nothing is left to reach, and the seed is the first node not yet visited. */
  ghost predicate IsSeedAt(g: ImportGraph, order: seq<Name>, i: nat)
    requires i < |order|
  {
    && (forall e :: e in g.edges && e.0 in order[..i] ==> e.1 in order[..i])
    && exists k :: 0 <= k < |g.nodes| && g.nodes[k] == order[i] && forall m :: 0 <= m < k ==> g.nodes[m] in order[..i]
  }

  /** Every position of the order so far is a seed or reached along an edge. */
  ghost predicate IsSearched(g: ImportGraph, order: seq<Name>) {
    forall i: nat :: i < |order| ==> IsSeedAt(g, order, i) || IsReachedInto(g, order, i)
  }

  /** All nodes, in the order of searches along the edges that are started from each node in turn. */
  ghost predicate IsSearchOrder(g: ImportGraph, order: seq<Name>) {
    Distinct(order) && Elements(order) == Elements(g.nodes) && IsSearched(g, order)
  }

  /** Both halves of a search order, the first one never larger. */
  ghost predicate AreHalves(g: ImportGraph, p1: seq<Name>, p2: seq<Name>) {
    IsSearchOrder(g, p1 + p2) && |p1| == |g.nodes| / 2 && |p1| + |p2| == |g.nodes|
  }

  /** A search from the first unvisited node prolongs the order. */
  lemma SearchProlongs(g: ImportGraph, adj: map<Name, seq<Name>>, order: seq<Name>, found: seq<Name>, k: nat)
    requires g.WellBuilt() && IsAdjacency(g, adj) && IsSearched(g, order)
    requires IsClosed(adj, Elements(g.nodes), Elements(order))
    requires found != [] && k < |g.nodes| && IsGrown(adj, g.nodes[k], found)
    requires forall m :: 0 <= m < k ==> g.nodes[m] in order
    ensures IsSearched(g, order + found)
  {
    var all := order + found;
    forall i: nat | i < |all| ensures IsSeedAt(g, all, i) || IsReachedInto(g, all, i) {
      if i < |order| {
        assert all[..i] == order[..i];
        EarlierStays(g, order, found, i);
      } else if i == |order| {
        assert all[..i] == order && found[0] == g.nodes[k];
        forall e | e in g.edges && e.0 in order ensures e.1 in order {
          assert e.0 in adj && e.1 in adj[e.0] && e.0 in Elements(order) && e.1 in Elements(g.nodes);
        }
      } else {
        assert IsReachedAt(adj, found, i - |order|);
        var j :| 0 <= j < i - |order| && found[j] in adj && found[i - |order|] in adj[found[j]];
        assert (all[|order| + j], all[i]) in g.edges;
      }
    }
  }

  lemma EarlierStays(g: ImportGraph, order: seq<Name>, found: seq<Name>, i: nat)
    requires i < |order| && (IsSeedAt(g, order, i) || IsReachedInto(g, order, i))
    ensures IsSeedAt(g, order + found, i) || IsReachedInto(g, order + found, i)
  {
    var all := order + found;
    assert all[..i] == order[..i] && all[i] == order[i];
    if IsReachedInto(g, order, i) {
      var j :| 0 <= j < i && (order[j], order[i]) in g.edges;
      assert (all[j], all[i]) in g.edges;
    }
  }

  /** All nodes in the order in which searches along the edges, started from each node in turn, visit them. */
  method SearchOrder(g: ImportGraph) returns (order: seq<Name>)
    requires g.WellBuilt()
    ensures IsSearchOrder(g, order)
  {
    hide IsClosed, Distinct, Forced, IsAdjacency, IsGrown, IsSearched;
    var adj := BuildAdjacency(g);
    var nodeSet := Elements(g.nodes);
    var visited: set<Name> := {};
    order := [];
    NothingVisited(g, adj, nodeSet);
    for k := 0 to |g.nodes|
      invariant visited <= nodeSet && IsClosed(adj, nodeSet, visited)
      invariant forall i :: 0 <= i < k ==> g.nodes[i] in visited
      invariant Distinct(order) && Elements(order) == visited
      invariant IsSearched(g, order)
    {
      var seed := g.nodes[k];
      if seed !in visited {
        var visited', found := Explore(adj, nodeSet, visited, seed);
        AppendDisjoint(order, found);
        SearchProlongs(g, adj, order, found, k);
        visited, order := visited', order + found;
      }
    }
    assert visited == nodeSet;
  }

  lemma NothingVisited(g: ImportGraph, adj: map<Name, seq<Name>>, nodes: set<Name>)
    ensures IsClosed(adj, nodes, {}) && Distinct<Name>([]) && IsSearched(g, [])
  {
  }

  method Bisection(g: ImportGraph) returns (p1: seq<Name>, p2: seq<Name>)
    requires g.WellBuilt()
    ensures (IsSplit(g.edges, p1, p2) && Crossing(g.edges, Elements(p1)) <= 1) || AreHalves(g, p1, p2)
    ensures |g.edges| >= 2 && (exists names :: {} < names < Endpoints(g.edges) && Crossing(g.edges, names) <= 1) ==>
      IsSplit(g.edges, p1, p2) && Crossing(g.edges, Elements(p1)) <= 1
    ensures |g.nodes| >= 2 ==> p1 != [] && p2 != []
  {
    var cut := MinCut(g.edges);
    if cut.Some? {
      p1, p2 := cut.value.1, cut.value.2;
      if p1 != [] && p2 != [] {
        return;
      }
    }
    var order := SearchOrder(g);
    DistinctCardinality(order);
    DistinctCardinality(g.nodes);
    var half := |order| / 2;
    p1, p2 := order[..half], order[half..];
    assert p1 + p2 == order;
  }
}
