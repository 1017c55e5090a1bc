/** The exported graph: which edges are coloured as lying on a cycle. */
module DotExport {
  import opened Digraph
  import opened Cycles

  datatype DotLine = NodeLine(name: Name) | EdgeLine(from: Name, to: Name, red: bool)

  /** The consecutive pairs of the listed cycles. */
  function CycleEdges(cycles: seq<seq<Name>>): set<(Name, Name)> {
    set i, j | 0 <= i < |cycles| && 0 <= j < |cycles[i]| - 1 :: Window(cycles[i], j)
  }

  function Window(o: seq<Name>, j: nat): (Name, Name)
    requires j + 1 < |o|
  {
    (o[j], o[j + 1])
  }

  method ExportDot(g: ImportGraph, cycles: seq<seq<Name>>) returns (lines: seq<DotLine>)
    ensures |lines| == |g.nodes| + |g.edges|
    ensures forall i :: 0 <= i < |g.nodes| ==> lines[i] == NodeLine(g.nodes[i])
    ensures forall i :: 0 <= i < |g.edges| ==>
      lines[|g.nodes| + i] == EdgeLine(g.edges[i].0, g.edges[i].1, g.edges[i] in CycleEdges(cycles))
  {
    var cycleEdges := CycleEdges(cycles);
    lines := [];
    for i := 0 to |g.nodes|
      invariant |lines| == i
      invariant forall k :: 0 <= k < i ==> lines[k] == NodeLine(g.nodes[k])
    {
      lines := lines + [NodeLine(g.nodes[i])];
    }
    for i := 0 to |g.edges|
      invariant |lines| == |g.nodes| + i
      invariant forall k :: 0 <= k < |g.nodes| ==> lines[k] == NodeLine(g.nodes[k])
      invariant forall k :: 0 <= k < i ==>
        lines[|g.nodes| + k] == EdgeLine(g.edges[k].0, g.edges[k].1, g.edges[k] in cycleEdges)
    {
      var (a, b) := g.edges[i];
      lines := lines + [EdgeLine(a, b, (a, b) in cycleEdges)];
    }
  }

  lemma RotatedCycle(g: ImportGraph, c: seq<Name>, k: nat)
    requires IsCycle(g, c) && k < |c|
    ensures IsWalk(g, Rotate(c, k))
  {
    var r, n := Rotate(c, k), |c|;
    forall i | 0 <= i < n - 1 ensures (r[i], r[i + 1]) in g.edges {
      var p := if i + k < n then i + k else i + k - n;
      if p < n - 1 { assert (c[p], c[p + 1]) in g.edges; }
    }
  }

  /** Going round the rest of a cycle leads from the head of any of its edges back to the tail. */
  lemma CycleEdgeReturns(g: ImportGraph, o: seq<Name>, j: nat)
    requires IsClosedCycle(g, o) && j < |o| - 1
    ensures Reaches(g, o[j + 1], o[j])
  {
    var c := Core(o);
    var k := if j + 1 < |c| then j + 1 else 0;
    RotatedCycle(g, c, k);
    assert IsWalkBetween(g, Rotate(c, k), o[j + 1], o[j]);
  }

  /** An edge whose head can reach its tail closes some elementary cycle. */
  lemma ReturningEdgeClosesCycle(g: ImportGraph, a: Name, b: Name) returns (p: seq<Name>)
    requires g.WellBuilt() && (a, b) in g.edges && Reaches(g, b, a)
    ensures IsCycle(g, p) && p[0] == b && p[|p| - 1] == a
  {
    var w :| IsWalkBetween(g, w, b, a);
    p := SimplifyWalk(g, w, b, a);
  }

  lemma ListedClosingEdge(g: ImportGraph, cycles: seq<seq<Name>>, i: nat, p: seq<Name>)
    requires Sound(g, cycles) && Lists(cycles, i, p) && IsCycle(g, p)
    ensures (p[|p| - 1], p[0]) in CycleEdges(cycles)
  {
    var o := cycles[i];
    var c := Core(o);
    var k: nat :| k < |c| && p == Rotate(c, k);
    assert IsClosedCycle(g, o);
    var j := if k == 0 then |c| - 1 else k - 1;
    assert (o[j], o[j + 1]) == (p[|p| - 1], p[0]);
    assert Window(cycles[i], j) in CycleEdges(cycles);
  }

  lemma ReturningEdgeIsListed(g: ImportGraph, cycles: seq<seq<Name>>, a: Name, b: Name)
    requires g.WellBuilt() && IsEnumeration(g, cycles) && (a, b) in g.edges && Reaches(g, b, a)
    ensures (a, b) in CycleEdges(cycles)
  {
    var p := ReturningEdgeClosesCycle(g, a, b);
    var i :| Lists(cycles, i, p);
    ListedClosingEdge(g, cycles, i, p);
  }

  /** An edge is coloured exactly when its head can reach its tail, that is, inside one strongly connected component. */
  lemma RedIffReturns(g: ImportGraph, cycles: seq<seq<Name>>, a: Name, b: Name)
    requires g.WellBuilt() && IsEnumeration(g, cycles) && (a, b) in g.edges
    ensures (a, b) in CycleEdges(cycles) <==> Reaches(g, b, a)
  {
    if (a, b) in CycleEdges(cycles) {
      var i, j :| 0 <= i < |cycles| && 0 <= j < |cycles[i]| - 1 && Window(cycles[i], j) == (a, b);
      CycleEdgeReturns(g, cycles[i], j);
    }
    if Reaches(g, b, a) {
      ReturningEdgeIsListed(g, cycles, a, b);
    }
  }

  /** The enumeration is empty exactly when no edge can be returned from, that is, when the graph is acyclic. */
  lemma NoCyclesIffAcyclic(g: ImportGraph, cycles: seq<seq<Name>>)
    requires g.WellBuilt() && IsEnumeration(g, cycles)
    ensures cycles == [] <==> forall e :: e in g.edges ==> !Reaches(g, e.1, e.0)
  {
    if cycles != [] {
      var o := cycles[0];
      assert IsClosedCycle(g, o);
      CycleEdgeReturns(g, o, 0);
      assert (Core(o)[0], Core(o)[1]) in g.edges;
    }
    forall e | e in g.edges && Reaches(g, e.1, e.0) ensures cycles != [] {
      var p := ReturningEdgeClosesCycle(g, e.0, e.1);
      var i :| Lists(cycles, i, p);
    }
  }
}
