/** Connected components of an import graph, its edges read in both directions. */
module Components {
  import opened Sequences
  import opened Digraph
  import opened Exploration
  import opened Undirected
  import opened Sorting

  /** c is one whole class of undirected reachability. */
  ghost predicate IsClass(g: ImportGraph, c: seq<Name>) {
    c != [] && forall a, b :: a in c ==> (b in c <==> b in g.nodes && Linked(g.edges, a, b))
  }

  /** The classes, each node in exactly one of them, largest first. */
  ghost predicate AreComponents(g: ImportGraph, comps: seq<seq<Name>>) {
    && (forall c :: c in comps ==> IsClass(g, c))
    && multiset(Flatten(comps)) == multiset(g.nodes)
    && (forall i, j :: 0 <= i < j < |comps| ==> |comps[i]| >= |comps[j]|)
  }

  /** What one search visits is one class. */
  lemma SearchFindsClass(g: ImportGraph, adj: map<Name, seq<Name>>, before: set<Name>, seed: Name, order: seq<Name>)
    requires g.WellBuilt() && IsNeighbourMap(g.edges, adj) && seed in order
    requires Elements(order) <= Elements(g.nodes) && Elements(order) !! before
    requires IsClosed(adj, Elements(g.nodes), before) && IsClosed(adj, Elements(g.nodes), before + Elements(order))
    requires Forced(adj, Elements(g.nodes), seed, order)
    ensures IsClass(g, order)
  {
    forall a | a in order ensures a in g.nodes && Linked(g.edges, seed, a) {
      ForcedIsLinked(g, adj, seed, order, a);
    }
    forall a, b | a in order ensures b in order <==> b in g.nodes && Linked(g.edges, a, b) {
      if b in order {
        assert b in Elements(order);
        LinkedIsSymmetric(g.edges, seed, a);
        LinkedIsTransitive(g.edges, a, seed, b);
      }
      if b in g.nodes && Linked(g.edges, a, b) {
        NothingLeavesSearch(g, adj, before, order);
        var w :| TrailBetween(g.edges, w, a, b);
        TrailStays(g.edges, w, Elements(order));
      }
    }
  }

  lemma ForcedIsLinked(g: ImportGraph, adj: map<Name, seq<Name>>, seed: Name, order: seq<Name>, a: Name)
    requires g.WellBuilt() && IsNeighbourMap(g.edges, adj) && seed in g.nodes
    requires Forced(adj, Elements(g.nodes), seed, order) && a in order
    ensures a in g.nodes && Linked(g.edges, seed, a)
  {
    var linked := set x | x in Elements(g.nodes) && Linked(g.edges, seed, x);
    LinkedToItself(g.edges, seed);
    forall x, y | x in linked && x in adj && y in adj[x] && y in Elements(g.nodes) ensures y in linked {
      JoinedIsLinked(g.edges, x, y);
      LinkedIsTransitive(g.edges, seed, x, y);
    }
    assert IsClosed(adj, Elements(g.nodes), linked) && seed in linked;
  }

  lemma NothingLeavesSearch(g: ImportGraph, adj: map<Name, seq<Name>>, before: set<Name>, order: seq<Name>)
    requires g.WellBuilt() && IsNeighbourMap(g.edges, adj)
    requires Elements(order) !! before
    requires IsClosed(adj, Elements(g.nodes), before) && IsClosed(adj, Elements(g.nodes), before + Elements(order))
    ensures forall e :: e in g.edges ==> (e.0 in Elements(order) <==> e.1 in Elements(order))
  {
    forall e | e in g.edges ensures e.0 in Elements(order) <==> e.1 in Elements(order) {
      assert Joined(g.edges, e.0, e.1) && Joined(g.edges, e.1, e.0);
      assert e.0 in Elements(g.nodes) && e.1 in Elements(g.nodes);
    }
  }

  lemma SameSetSameMultiset<T>(s: seq<T>, t: seq<T>)
    requires Distinct(s) && Distinct(t) && Elements(s) == Elements(t)
    ensures multiset(s) == multiset(t)
  {
    DistinctMultiset(s);
    DistinctMultiset(t);
  }

  method ConnectedComponents(g: ImportGraph) returns (comps: seq<seq<Name>>)
    requires g.WellBuilt()
    ensures AreComponents(g, comps)
  {
    hide IsClass, IsClosed, Distinct, Forced, LargestFirst;
    var adj := NeighbourMap(g.edges);
    var nodeSet := Elements(g.nodes);
    var visited: set<Name> := {};
    comps := [];
    EmptyIsClosed(adj, nodeSet);
    for k := 0 to |g.nodes|
      invariant visited <= nodeSet && IsClosed(adj, nodeSet, visited)
      invariant forall i :: 0 <= i < k ==> g.nodes[i] in visited
      invariant forall c :: c in comps ==> IsClass(g, c)
      invariant Distinct(Flatten(comps)) && Elements(Flatten(comps)) == visited
    {
      var n := g.nodes[k];
      if n !in visited {
        var visited', comp := Explore(adj, nodeSet, visited, n);
        SearchFindsClass(g, adj, visited, n, comp);
        FlattenSplit(comps, [comp]);
        FlattenOne(comp);
        AppendDisjoint(Flatten(comps), comp);
        visited, comps := visited', comps + [comp];
      }
    }
    assert visited == nodeSet;
    SameSetSameMultiset(Flatten(comps), g.nodes);
    LargestFirstSorts(comps);
    comps := LargestFirst(comps);
  }

  lemma EmptyIsClosed(adj: map<Name, seq<Name>>, nodes: set<Name>)
    ensures IsClosed(adj, nodes, {}) && Distinct<Name>([])
  {
  }
}
