/** Import graphs, walks in them, and cycles up to rotation. */
module Digraph {
  import opened Ordering
  import opened Sequences

  type Name = string

  datatype ImportGraph = ImportGraph(nodes: seq<Name>, edges: seq<(Name, Name)>) {
    /** What the graph builder guarantees: distinct nodes, no edge to a stranger, no self-import. */
    ghost predicate WellBuilt() {
      Distinct(nodes) && forall e :: e in edges ==> e.0 in nodes && e.1 in nodes && e.0 != e.1
    }
  }

  // ---- walks ----

  ghost predicate IsWalk(g: ImportGraph, w: seq<Name>) {
    |w| > 0 && forall i :: 0 <= i < |w| - 1 ==> (w[i], w[i + 1]) in g.edges
  }

  ghost predicate IsWalkBetween(g: ImportGraph, w: seq<Name>, a: Name, b: Name) {
    IsWalk(g, w) && w[0] == a && w[|w| - 1] == b
  }

  ghost predicate Reaches(g: ImportGraph, a: Name, b: Name) {
    exists w :: IsWalkBetween(g, w, a, b)
  }

  /** Cutting out the detours of a walk leaves a walk that visits no node twice. */
  lemma {:induction false} SimplifyWalk(g: ImportGraph, w: seq<Name>, a: Name, b: Name) returns (p: seq<Name>)
    requires IsWalkBetween(g, w, a, b)
    ensures IsWalkBetween(g, p, a, b) && Distinct(p)
    decreases |w|
  {
    if Distinct(w) {
      p := w;
    } else {
      var i, j :| 0 <= i < j < |w| && w[i] == w[j];
      var shorter := w[..i] + w[j..];
      forall k | 0 <= k < |shorter| - 1 ensures (shorter[k], shorter[k + 1]) in g.edges {
        var source := if k < i then k else k - i + j;
        assert (w[source], w[source + 1]) in g.edges;
      }
      p := SimplifyWalk(g, shorter, a, b);
    }
  }

  // ---- cycles ----

  /** An elementary cycle, written without repeating its first node at the end. */
  ghost predicate IsCycle(g: ImportGraph, c: seq<Name>) {
    |c| >= 2 && Distinct(c) && IsWalk(g, c) && (c[|c| - 1], c[0]) in g.edges
  }

  function Rotate<T>(s: seq<T>, k: nat): (r: seq<T>)
    requires k <= |s|
    ensures |r| == |s|
    ensures forall i :: 0 <= i < |s| ==> r[i] == s[if i + k < |s| then i + k else i + k - |s|]
  {
    s[k..] + s[..k]
  }

  ghost predicate SameCycle<T>(a: seq<T>, b: seq<T>) {
    exists k: nat :: k < |a| && b == Rotate(a, k)
  }

  /** The position of a least name; the first one, as an iterator's minimum. */
  function MinIndex(s: seq<Name>): (m: nat)
    requires s != []
    ensures m < |s|
    ensures forall i :: 0 <= i < |s| ==> AtMost(s[m], s[i])
  {
    if |s| == 1 then 0
    else
      var m := MinIndex(s[..|s| - 1]);
      var last := s[|s| - 1];
      BelowIsTotal(s[m], last);
      if Below(last, s[m]) then
        assert forall i :: 0 <= i < |s| - 1 ==> AtMost(last, s[i]) by {
          forall i | 0 <= i < |s| - 1 ensures AtMost(last, s[i]) {
            assert AtMost(s[m], s[..|s| - 1][i]);
            if s[m] != s[i] { BelowIsTransitive(last, s[m], s[i]); }
          }
        }
        |s| - 1
      else
        assert forall i :: 0 <= i < |s| - 1 ==> s[..|s| - 1][i] == s[i];
        m
  }

  /** The signature under which a cycle is remembered: rotated to start at its least name. */
  function Canonical(c: seq<Name>): (r: seq<Name>)
    requires c != []
    ensures |r| == |c|
  {
    var m := MinIndex(c);
    seq(|c|, i requires 0 <= i < |c| => c[(m + i) % |c|])
  }

  lemma CanonicalIsRotation(c: seq<Name>)
    requires c != []
    ensures Canonical(c) == Rotate(c, MinIndex(c))
  {
    var m, n := MinIndex(c), |c|;
    forall i | 0 <= i < n ensures Canonical(c)[i] == Rotate(c, m)[i] {
      WrapIndex(m + i, n);
    }
  }

  lemma WrapIndex(i: nat, n: nat)
    requires 0 < n && i < 2 * n
    ensures i % n == if i < n then i else i - n
  {
    if i >= n {
      assert (i - n) % n == i - n;
      assert i == (i - n) + n * 1;
    }
  }

  lemma RotateTwice<T>(s: seq<T>, i: nat, j: nat)
    requires i < |s| && j < |s|
    ensures Rotate(Rotate(s, i), j) == Rotate(s, if i + j < |s| then i + j else i + j - |s|)
  {
  }

  lemma RotationKeepsElements<T>(s: seq<T>, k: nat)
    requires k < |s|
    ensures forall x :: x in Rotate(s, k) <==> x in s
    ensures Distinct(s) ==> Distinct(Rotate(s, k))
  {
    forall x | x in s ensures x in Rotate(s, k) {
      var i :| 0 <= i < |s| && s[i] == x;
      assert Rotate(s, k)[if i >= k then i - k else i - k + |s|] == x;
    }
  }

  lemma RotateBack<T>(a: seq<T>, i: nat, b: seq<T>, j: nat)
    requires i < |a| && j < |b| && Rotate(a, i) == Rotate(b, j)
    ensures SameCycle(a, b)
  {
    var n := |a|;
    var back := if j == 0 then 0 else n - j;
    RotateTwice(b, j, back);
    assert Rotate(b, 0) == b;
    RotateTwice(a, i, back);
    assert b == Rotate(a, if i + back < n then i + back else i + back - n);
  }

  lemma LeastNameAgrees(a: seq<Name>, b: seq<Name>)
    requires a != [] && forall x :: x in a <==> x in b
    ensures b != [] && a[MinIndex(a)] == b[MinIndex(b)]
  {
    assert a[0] in b;
    var x, y := a[MinIndex(a)], b[MinIndex(b)];
    assert x in b && y in a;
    if x != y {
      BelowIsStrict(x, y);
    }
  }

  /** Rotating a cycle moves its least name but does not change which name is least. */
  lemma RotationMovesLeast(a: seq<Name>, k: nat)
    requires Distinct(a) && k < |a|
    ensures var j := MinIndex(Rotate(a, k));
            MinIndex(a) == if j + k < |a| then j + k else j + k - |a|
  {
    hide MinIndex, AtMost;
    var b := Rotate(a, k);
    RotationKeepsElements(a, k);
    LeastNameAgrees(a, b);
    var j := MinIndex(b);
    assert a[MinIndex(a)] == b[j] == a[if j + k < |a| then j + k else j + k - |a|];
  }

  /** Two cycles have one signature exactly when one is a rotation of the other. */
  lemma SignatureDecidesSameCycle(a: seq<Name>, b: seq<Name>)
    requires a != [] && b != [] && Distinct(a)
    ensures Canonical(a) == Canonical(b) <==> SameCycle(a, b)
  {
    CanonicalIsRotation(a);
    CanonicalIsRotation(b);
    if Canonical(a) == Canonical(b) {
      RotateBack(a, MinIndex(a), b, MinIndex(b));
    }
    if SameCycle(a, b) {
      var k: nat :| k < |a| && b == Rotate(a, k);
      RotationMovesLeast(a, k);
      RotateTwice(a, k, MinIndex(b));
    }
  }
}
