/** The library's stable sort, by insertion. */
module Sorting {

  ghost predicate IsTotalPreorder<T(!new)>(leq: (T, T) -> bool) {
    (forall x, y :: leq(x, y) || leq(y, x)) && (forall x, y, z :: leq(x, y) && leq(y, z) ==> leq(x, z))
  }

  ghost predicate Ordered<T>(s: seq<T>, leq: (T, T) -> bool) {
    forall i, j :: 0 <= i < j < |s| ==> leq(s[i], s[j])
  }

  /** Puts x before the first element it is at most as large as. */
  function Insert<T>(x: T, s: seq<T>, leq: (T, T) -> bool): (r: seq<T>)
    ensures multiset(r) == multiset(s) + multiset{x}
  {
    if s == [] || leq(x, s[0]) then [x] + s
    else
      var r := [s[0]] + Insert(x, s[1..], leq);
      assert s == [s[0]] + s[1..];
      r
  }

  function SortBy<T>(s: seq<T>, leq: (T, T) -> bool): (r: seq<T>)
    ensures multiset(r) == multiset(s)
  {
    if s == [] then []
    else
      assert s == [s[0]] + s[1..];
      Insert(s[0], SortBy(s[1..], leq), leq)
  }

  lemma {:induction false} InsertOrders<T(!new)>(x: T, s: seq<T>, leq: (T, T) -> bool)
    requires IsTotalPreorder(leq) && Ordered(s, leq)
    ensures Ordered(Insert(x, s, leq), leq)
  {
    if s != [] && !leq(x, s[0]) {
      var rest := Insert(x, s[1..], leq);
      InsertOrders(x, s[1..], leq);
      forall i | 0 <= i < |rest| ensures leq(s[0], rest[i]) {
        assert rest[i] in multiset(rest);
        assert rest[i] == x || rest[i] in s[1..];
      }
    }
  }

  lemma {:induction false} SortOrders<T(!new)>(s: seq<T>, leq: (T, T) -> bool)
    requires IsTotalPreorder(leq)
    ensures Ordered(SortBy(s, leq), leq)
  {
    if s != [] {
      SortOrders(s[1..], leq);
      InsertOrders(s[0], SortBy(s[1..], leq), leq);
    }
  }

  /** Ordered, and what ties in the order stays in the order of the positions. */
  ghost predicate StablyOrdered<T>(s: seq<T>, leq: (T, T) -> bool, position: T -> int) {
    forall i, j :: 0 <= i < j < |s| ==> leq(s[i], s[j]) && (leq(s[j], s[i]) ==> position(s[i]) < position(s[j]))
  }

  /** What is inserted behind the first element of a stable order stays behind it. */
  lemma FirstStaysFirst<T(!new)>(x: T, s: seq<T>, leq: (T, T) -> bool, position: T -> int, y: T)
    requires IsTotalPreorder(leq) && StablyOrdered(s, leq, position) && s != [] && !leq(x, s[0])
    requires y in Insert(x, s[1..], leq)
    ensures leq(s[0], y) && (leq(y, s[0]) ==> position(s[0]) < position(y))
  {
    assert y in multiset(Insert(x, s[1..], leq));
    if y != x {
      var k :| 0 <= k < |s[1..]| && s[1..][k] == y;
    }
  }

  lemma {:induction false} InsertIsStable<T(!new)>(x: T, s: seq<T>, leq: (T, T) -> bool, position: T -> int)
    requires IsTotalPreorder(leq) && StablyOrdered(s, leq, position)
    requires forall i :: 0 <= i < |s| ==> position(x) < position(s[i])
    ensures StablyOrdered(Insert(x, s, leq), leq, position)
  {
    if s == [] {
    } else if leq(x, s[0]) {
      assert forall i :: 0 <= i < |s| ==> leq(s[0], s[i]) || i == 0;
    } else {
      hide IsTotalPreorder;
      var rest := Insert(x, s[1..], leq);
      InsertIsStable(x, s[1..], leq, position);
      forall i | 0 <= i < |rest|
        ensures leq(s[0], rest[i]) && (leq(rest[i], s[0]) ==> position(s[0]) < position(rest[i]))
      {
        FirstStaysFirst(x, s, leq, position, rest[i]);
      }
    }
  }

  lemma {:induction false} SortIsStable<T(!new)>(s: seq<T>, leq: (T, T) -> bool, position: T -> int)
    requires IsTotalPreorder(leq)
    requires forall i, j :: 0 <= i < j < |s| ==> position(s[i]) < position(s[j])
    ensures StablyOrdered(SortBy(s, leq), leq, position)
  {
    if s != [] {
      var rest := SortBy(s[1..], leq);
      SortIsStable(s[1..], leq, position);
      forall i | 0 <= i < |rest| ensures position(s[0]) < position(rest[i]) {
        assert rest[i] in multiset(rest);
        var k :| 0 <= k < |s[1..]| && s[1..][k] == rest[i];
      }
      InsertIsStable(s[0], rest, leq, position);
    }
  }

  lemma SameMembers<T>(r: seq<T>, s: seq<T>)
    requires multiset(r) == multiset(s)
    ensures forall x :: x in r <==> x in s
    ensures |r| == |s|
  {
    assert forall x :: x in r <==> x in multiset(r);
    assert |r| == |multiset(r)| && |s| == |multiset(s)|;
  }

  lemma MemberAt<T>(r: seq<T>, s: seq<T>, i: nat)
    requires multiset(r) == multiset(s) && i < |r|
    ensures r[i] in s
  {
    assert r[i] in multiset(r);
  }

  // ---- concatenating groups ----

  function Flatten<T>(groups: seq<seq<T>>): seq<T> {
    if groups == [] then [] else Flatten(groups[..|groups| - 1]) + groups[|groups| - 1]
  }

  lemma {:induction false} FlattenSplit<T>(a: seq<seq<T>>, b: seq<seq<T>>)
    ensures Flatten(a + b) == Flatten(a) + Flatten(b)
  {
    if b == [] {
      assert a + b == a;
    } else {
      var last := |b| - 1;
      assert (a + b)[..|a + b| - 1] == a + b[..last] && (a + b)[|a + b| - 1] == b[last];
      FlattenSplit(a, b[..last]);
      assert (Flatten(a) + Flatten(b[..last])) + b[last] == Flatten(a) + (Flatten(b[..last]) + b[last]);
    }
  }

  lemma {:induction false} FlattenMembers<T>(groups: seq<seq<T>>, g: seq<T>, x: T)
    requires g in groups && x in g
    ensures x in Flatten(groups)
  {
    var last := |groups| - 1;
    if g != groups[last] {
      FlattenMembers(groups[..last], g, x);
    }
  }

  /** Reordering the groups does not change what they hold together. */
  lemma {:induction false} InsertKeepsContents<T>(x: seq<T>, s: seq<seq<T>>, leq: (seq<T>, seq<T>) -> bool)
    ensures multiset(Flatten(Insert(x, s, leq))) == multiset(x) + multiset(Flatten(s))
  {
    if s == [] || leq(x, s[0]) {
      FlattenSplit([x], s);
      FlattenOne(x);
    } else {
      InsertKeepsContents(x, s[1..], leq);
      FlattenSplit([s[0]], Insert(x, s[1..], leq));
      FlattenSplit([s[0]], s[1..]);
      assert s == [s[0]] + s[1..];
    }
  }

  lemma FlattenOne<T>(x: seq<T>)
    ensures Flatten([x]) == x
  {
    assert [x][..0] == [];
    assert Flatten([x]) == Flatten<T>([]) + x;
  }

  lemma {:induction false} SortKeepsContents<T>(s: seq<seq<T>>, leq: (seq<T>, seq<T>) -> bool)
    ensures multiset(Flatten(SortBy(s, leq))) == multiset(Flatten(s))
  {
    if s != [] {
      SortKeepsContents(s[1..], leq);
      InsertKeepsContents(s[0], SortBy(s[1..], leq), leq);
      FlattenSplit([s[0]], s[1..]);
      FlattenOne(s[0]);
      assert s == [s[0]] + s[1..];
    }
  }

  /** Largest group first; ties stay in order. */
  function LargestFirst<T>(groups: seq<seq<T>>): seq<seq<T>> {
    SortBy(groups, (c: seq<T>, d: seq<T>) => |c| >= |d|)
  }

  lemma LargestFirstSorts<T(!new)>(groups: seq<seq<T>>)
    ensures var r := LargestFirst(groups);
      && multiset(Flatten(r)) == multiset(Flatten(groups))
      && (forall c :: c in r <==> c in groups)
      && (forall i, j :: 0 <= i < j < |r| ==> |r[i]| >= |r[j]|)
  {
    var bySize := (c: seq<T>, d: seq<T>) => |c| >= |d|;
    var r := SortBy(groups, bySize);
    SortOrders(groups, bySize);
    SortKeepsContents(groups, bySize);
    SameMembers(r, groups);
    assert forall i, j :: 0 <= i < j < |r| ==> bySize(r[i], r[j]);
  }
}
