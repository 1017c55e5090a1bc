/** Enumeration of the elementary import cycles, and the colouring of the exported graph. */
module Cycles {
  import opened Sequences
  import opened Digraph

  // ---- the adjacency map ----

  ghost predicate IsAdjacency(g: ImportGraph, adj: map<Name, seq<Name>>) {
    forall a, b :: (a in adj && b in adj[a]) <==> (a, b) in g.edges
  }

  method BuildAdjacency(g: ImportGraph) returns (adj: map<Name, seq<Name>>)
    ensures IsAdjacency(g, adj)
  {
    adj := map[];
    for k := 0 to |g.edges|
      invariant forall a, b :: (a in adj && b in adj[a]) <==> (a, b) in g.edges[..k]
    {
      var (a, b) := g.edges[k];
      adj := adj[a := (if a in adj then adj[a] else []) + [b]];
      assert g.edges[..k + 1] == g.edges[..k] + [(a, b)];
    }
  }

  // ---- what the enumeration promises ----

  function Core(cycle: seq<Name>): seq<Name>
    requires |cycle| > 0
  {
    cycle[..|cycle| - 1]
  }

  /** An output: an elementary cycle followed by its first node again. */
  ghost predicate IsClosedCycle(g: ImportGraph, o: seq<Name>) {
    |o| > 0 && IsCycle(g, Core(o)) && o[|o| - 1] == o[0]
  }

  ghost predicate Sound(g: ImportGraph, cycles: seq<seq<Name>>) {
    forall i :: 0 <= i < |cycles| ==> IsClosedCycle(g, cycles[i])
  }

  /** Position i holds the cycle c, from whatever node it was first entered. */
  ghost predicate Lists(cycles: seq<seq<Name>>, i: nat, c: seq<Name>) {
    i < |cycles| && |cycles[i]| > 0 && SameCycle(Core(cycles[i]), c)
  }

  ghost predicate Complete(g: ImportGraph, cycles: seq<seq<Name>>) {
    forall c :: IsCycle(g, c) ==> exists i :: Lists(cycles, i, c)
  }

  ghost predicate Irredundant(cycles: seq<seq<Name>>) {
    forall i, j :: 0 <= i < j < |cycles| && |cycles[j]| > 0 ==> !Lists(cycles, i, Core(cycles[j]))
  }

  /** Every output is an elementary cycle, and every elementary cycle is exactly one output up to rotation. */
  ghost predicate IsEnumeration(g: ImportGraph, cycles: seq<seq<Name>>) {
    Sound(g, cycles) && Complete(g, cycles) && Irredundant(cycles)
  }

  // ---- the search ----

  /** The outputs so far are closed cycles and `seen` holds exactly their signatures, one each. */
  ghost predicate Recorded(g: ImportGraph, out: seq<seq<Name>>, seen: set<seq<Name>>) {
    && (forall i :: 0 <= i < |out| ==> IsClosedCycle(g, out[i]) && Canonical(Core(out[i])) in seen)
    && (forall s :: s in seen ==> exists i :: 0 <= i < |out| && |out[i]| > 1 && Canonical(Core(out[i])) == s)
    && (forall i, j :: 0 <= i < j < |out| && |out[i]| > 1 && |out[j]| > 1
          ==> Canonical(Core(out[i])) != Canonical(Core(out[j])))
  }

  /** The node that follows `path` in a cycle it begins; the first node again if the path is the whole cycle. */
  ghost predicate ContinuesWith(g: ImportGraph, path: seq<Name>, nb: Name, c: seq<Name>) {
    IsCycle(g, c) && path != [] && path <= c && nb == if |c| == |path| then c[0] else c[|path|]
  }

  ghost predicate SeenThrough(g: ImportGraph, path: seq<Name>, nb: Name, seen: set<seq<Name>>) {
    forall c :: ContinuesWith(g, path, nb, c) ==> Canonical(c) in seen
  }

  ghost predicate SeenFrom(g: ImportGraph, path: seq<Name>, seen: set<seq<Name>>) {
    forall c :: IsCycle(g, c) && path <= c ==> Canonical(c) in seen
  }

  ghost predicate IsOpenPath(g: ImportGraph, path: seq<Name>) {
    IsWalk(g, path) && Distinct(path) && forall n :: n in path ==> n in g.nodes
  }

  lemma RecordNew(g: ImportGraph, out: seq<seq<Name>>, seen: set<seq<Name>>, cycle: seq<Name>)
    requires Recorded(g, out, seen) && |cycle| > 1 && IsClosedCycle(g, cycle) && Canonical(Core(cycle)) !in seen
    ensures Recorded(g, out + [cycle], seen + {Canonical(Core(cycle))})
  {
    hide Canonical, IsClosedCycle;
    var out', seen' := out + [cycle], seen + {Canonical(Core(cycle))};
    forall s | s in seen'
      ensures exists i :: 0 <= i < |out'| && |out'[i]| > 1 && Canonical(Core(out'[i])) == s
    {
      if s in seen {
        var i :| 0 <= i < |out| && |out[i]| > 1 && Canonical(Core(out[i])) == s;
        assert out'[i] == out[i];
      } else {
        assert out'[|out|] == cycle;
      }
    }
  }

  lemma ClosingCovers(g: ImportGraph, path: seq<Name>, seen: set<seq<Name>>)
    requires IsOpenPath(g, path) && Canonical(path) in seen
    ensures SeenThrough(g, path, path[0], seen)
  {
    forall c | ContinuesWith(g, path, path[0], c) ensures c == path {
    }
  }

  lemma OnPathCovers(g: ImportGraph, path: seq<Name>, nb: Name, seen: set<seq<Name>>)
    requires IsOpenPath(g, path) && nb in path && (nb == path[0] ==> |path| == 1)
    ensures SeenThrough(g, path, nb, seen)
  {
    var i :| 0 <= i < |path| && path[i] == nb;
    assert forall c :: ContinuesWith(g, path, nb, c) ==> c[i] == nb;
  }

  lemma ExtendingCovers(g: ImportGraph, path: seq<Name>, nb: Name, seen: set<seq<Name>>)
    requires IsOpenPath(g, path) && nb !in path && SeenFrom(g, path + [nb], seen)
    ensures SeenThrough(g, path, nb, seen)
  {
    forall c | ContinuesWith(g, path, nb, c) ensures path + [nb] <= c {
      assert |c| != |path|;
    }
  }

  lemma SeenGrows(g: ImportGraph, path: seq<Name>, next: seq<Name>, before: set<seq<Name>>, seen: set<seq<Name>>)
    requires before <= seen && forall nb :: nb in next ==> SeenThrough(g, path, nb, before)
    ensures forall nb :: nb in next ==> SeenThrough(g, path, nb, seen)
  {
  }

  lemma AllNeighboursCover(g: ImportGraph, path: seq<Name>, nbrs: seq<Name>, seen: set<seq<Name>>)
    requires IsOpenPath(g, path)
    requires forall b :: b in nbrs <==> (path[|path| - 1], b) in g.edges
    requires forall nb :: nb in nbrs ==> SeenThrough(g, path, nb, seen)
    ensures SeenFrom(g, path, seen)
  {
    forall c | IsCycle(g, c) && path <= c ensures Canonical(c) in seen {
      var nb := if |c| == |path| then c[0] else c[|path|];
      assert c[|path| - 1] == path[|path| - 1];
      assert ContinuesWith(g, path, nb, c);
      assert SeenThrough(g, path, nb, seen);
    }
  }

  lemma ExtendPath(g: ImportGraph, path: seq<Name>, nb: Name)
    requires g.WellBuilt() && IsOpenPath(g, path) && nb !in path && (path[|path| - 1], nb) in g.edges
    ensures IsOpenPath(g, path + [nb]) && Elements(path + [nb]) == Elements(path) + {nb}
  {
  }

  lemma ClosePath(g: ImportGraph, path: seq<Name>)
    requires IsOpenPath(g, path) && |path| > 1 && (path[|path| - 1], path[0]) in g.edges
    ensures Core(path + [path[0]]) == path && IsClosedCycle(g, path + [path[0]])
  {
    assert Core(path + [path[0]]) == path;
  }

  class CycleSearch {
    var path: seq<Name>
    var onPath: set<Name>
    var out: seq<seq<Name>>
    var seen: set<seq<Name>>

    constructor ()
      ensures out == [] && seen == {}
    {
      path, onPath, out, seen := [], {}, [], {};
    }

    /** Extends the current path in every way that could still close at its first node. */
    method Dfs(ghost g: ImportGraph, start: Name, cur: Name, adj: map<Name, seq<Name>>, depth: nat, maxDepth: nat)
      requires g.WellBuilt() && IsAdjacency(g, adj)
      requires maxDepth == if |g.nodes| == 0 then 1 else |g.nodes|
      requires IsOpenPath(g, path) && depth == |path| - 1
      requires path[0] == start && path[|path| - 1] == cur
      requires onPath == Elements(path)
      requires Recorded(g, out, seen)
      modifies this
      ensures path == old(path) && onPath == old(onPath)
      ensures Recorded(g, out, seen)
      ensures old(out) <= out && old(seen) <= seen
      ensures SeenFrom(g, path, seen)
      decreases maxDepth - depth
    {
      hide Recorded, SeenThrough, SeenFrom, Canonical, IsClosedCycle, Core, Distinct, ImportGraph.WellBuilt;
      if depth >= maxDepth {
        // never reached: the path is simple
        PathFits(g, path);
        assert false;
      } else {
        var nbrs := if cur in adj then adj[cur] else [];
        for i := 0 to |nbrs|
          invariant path == old(path) && onPath == old(onPath)
          invariant Recorded(g, out, seen)
          invariant old(out) <= out && old(seen) <= seen
          invariant forall nb :: nb in nbrs[..i] ==> SeenThrough(g, path, nb, seen)
        {
          var nb := nbrs[i];
          assert nbrs[..i + 1] == nbrs[..i] + [nb];
          ghost var before := seen;
          if nb == start && |path| > 1 {
            var cycle := path + [start];
            ClosePath(g, path);
            var sig := Canonical(Core(cycle));
            if sig !in seen {
              RecordNew(g, out, seen, cycle);
              seen := seen + {sig};
              out := out + [cycle];
            }
            ClosingCovers(g, path, seen);
          } else if nb !in onPath {
            ExtendPath(g, path, nb);
            path := path + [nb];
            onPath := onPath + {nb};
            Dfs(g, start, nb, adj, depth + 1, maxDepth);
            onPath := onPath - {nb};
            path := path[..|path| - 1];
            ExtendingCovers(g, path, nb, seen);
          } else {
            OnPathCovers(g, path, nb, seen);
          }
          SeenGrows(g, path, nbrs[..i], before, seen);
        }
        assert nbrs[..|nbrs|] == nbrs;
        AllNeighboursCover(g, path, nbrs, seen);
      }
    }
  }

  lemma PathFits(g: ImportGraph, path: seq<Name>)
    requires g.WellBuilt() && IsOpenPath(g, path)
    ensures |path| <= |g.nodes|
  {
    DistinctFits(path, g.nodes);
  }

  lemma FindRecorded(g: ImportGraph, cycles: seq<seq<Name>>, seen: set<seq<Name>>, c: seq<Name>) returns (i: nat)
    requires g.WellBuilt() && Recorded(g, cycles, seen) && IsCycle(g, c)
    requires forall i :: 0 <= i < |g.nodes| ==> SeenFrom(g, [g.nodes[i]], seen)
    ensures Lists(cycles, i, c)
  {
    assert (c[0], c[1]) in g.edges;
    var k :| 0 <= k < |g.nodes| && g.nodes[k] == c[0];
    assert SeenFrom(g, [g.nodes[k]], seen) && [g.nodes[k]] <= c;
    i :| 0 <= i < |cycles| && |cycles[i]| > 1 && Canonical(Core(cycles[i])) == Canonical(c);
    SignatureDecidesSameCycle(Core(cycles[i]), c);
  }

  lemma SeenIsComplete(g: ImportGraph, cycles: seq<seq<Name>>, seen: set<seq<Name>>)
    requires g.WellBuilt() && Recorded(g, cycles, seen)
    requires forall i :: 0 <= i < |g.nodes| ==> SeenFrom(g, [g.nodes[i]], seen)
    ensures Complete(g, cycles)
  {
    hide Recorded, IsCycle, Lists, SeenFrom, ImportGraph.WellBuilt;
    forall c | IsCycle(g, c) ensures exists i :: Lists(cycles, i, c) {
      var i := FindRecorded(g, cycles, seen, c);
    }
  }

  lemma RecordedIsIrredundant(g: ImportGraph, cycles: seq<seq<Name>>, seen: set<seq<Name>>)
    requires Recorded(g, cycles, seen)
    ensures Irredundant(cycles)
  {
    hide Canonical, SameCycle;
    forall i, j | 0 <= i < j < |cycles| && |cycles[j]| > 0
      ensures !Lists(cycles, i, Core(cycles[j]))
    {
      assert IsClosedCycle(g, cycles[i]) && IsClosedCycle(g, cycles[j]);
      SignatureDecidesSameCycle(Core(cycles[i]), Core(cycles[j]));
    }
  }

  method FindCycles(g: ImportGraph) returns (cycles: seq<seq<Name>>)
    requires g.WellBuilt()
    ensures IsEnumeration(g, cycles)
  {
    var adj := BuildAdjacency(g);
    var search := new CycleSearch();
    var maxDepth := if |g.nodes| == 0 then 1 else |g.nodes|;
    for k := 0 to |g.nodes|
      invariant fresh(search)
      invariant Recorded(g, search.out, search.seen)
      invariant forall i :: 0 <= i < k ==> SeenFrom(g, [g.nodes[i]], search.seen)
    {
      var start := g.nodes[k];
      search.path := [start];
      search.onPath := {start};
      search.Dfs(g, start, start, adj, 0, maxDepth);
    }
    cycles := search.out;
    SeenIsComplete(g, cycles, search.seen);
    RecordedIsIrredundant(g, cycles, search.seen);
  }
}
