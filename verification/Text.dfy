/** White space, trimming and joining. */
module Text {

  /** The characters with the White_Space property. */
  predicate IsSpace(c: char) {
    var n := c as int;
    9 <= n <= 13 || n == 0x20 || n == 0x85 || n == 0xA0 || n == 0x1680 || 0x2000 <= n <= 0x200A
    || n == 0x2028 || n == 0x2029 || n == 0x202F || n == 0x205F || n == 0x3000
  }

  lemma WhiteSpace(c: char)
    ensures IsSpace(c) <==>
      c in "\t\n\U{000B}\U{000C}\r \U{0085}\U{00A0}\U{1680}\U{2000}\U{2001}\U{2002}\U{2003}\U{2004}\U{2005}"
        || c in "\U{2006}\U{2007}\U{2008}\U{2009}\U{200A}\U{2028}\U{2029}\U{202F}\U{205F}\U{3000}"
  {
  }

  predicate AllSpace(s: string) {
    forall i :: 0 <= i < |s| ==> IsSpace(s[i])
  }

  function TrimStart(s: string): string {
    if s != [] && IsSpace(s[0]) then TrimStart(s[1..]) else s
  }

  function TrimEnd(s: string): string {
    if s != [] && IsSpace(s[|s| - 1]) then TrimEnd(s[..|s| - 1]) else s
  }

  function Trim(s: string): string {
    TrimEnd(TrimStart(s))
  }

  predicate IsTrimmed(s: string) {
    s == [] || (!IsSpace(s[0]) && !IsSpace(s[|s| - 1]))
  }

  lemma {:induction false} TrimStartCuts(s: string) returns (lo: nat)
    ensures lo <= |s| && TrimStart(s) == s[lo..] && AllSpace(s[..lo])
    ensures lo < |s| ==> !IsSpace(s[lo])
  {
    lo := 0;
    if s != [] && IsSpace(s[0]) {
      var lo' := TrimStartCuts(s[1..]);
      lo := lo' + 1;
      assert s[1..][lo'..] == s[lo..];
      assert s[..lo] == [s[0]] + s[1..][..lo'];
    }
  }

  lemma {:induction false} TrimEndCuts(s: string) returns (hi: nat)
    ensures hi <= |s| && TrimEnd(s) == s[..hi] && AllSpace(s[hi..])
    ensures hi > 0 ==> !IsSpace(s[hi - 1])
  {
    hi := |s|;
    if s != [] && IsSpace(s[|s| - 1]) {
      hi := TrimEndCuts(s[..|s| - 1]);
      assert s[..|s| - 1][..hi] == s[..hi];
      assert s[hi..] == s[..|s| - 1][hi..] + [s[|s| - 1]];
    }
  }

  /** Trimming keeps one stretch of the text, and cuts only white space around it. */
  lemma TrimIsSlice(s: string) returns (lo: nat, hi: nat)
    ensures lo <= hi <= |s| && Trim(s) == s[lo..hi] && AllSpace(s[..lo]) && AllSpace(s[hi..])
    ensures IsTrimmed(Trim(s))
    ensures lo < hi ==> !IsSpace(s[lo]) && !IsSpace(s[hi - 1])
  {
    lo := TrimStartCuts(s);
    var n := TrimEndCuts(s[lo..]);
    hi := lo + n;
    assert s[lo..][..n] == s[lo..hi] && s[lo..][n..] == s[hi..];
    if n > 0 {
      assert s[lo..][n - 1] == s[hi - 1];
    }
  }

  lemma {:induction false} TrimAfterSpace(pre: string, s: string)
    requires AllSpace(pre) && IsTrimmed(s) && s != []
    ensures Trim(pre + s) == s
  {
    if pre == [] {
      assert pre + s == s;
    } else {
      assert (pre + s)[1..] == pre[1..] + s;
      TrimAfterSpace(pre[1..], s);
    }
  }

  function Join(parts: seq<string>): string {
    if |parts| == 0 then "" else if |parts| == 1 then parts[0] else parts[0] + (" " + Join(parts[1..]))
  }

  // ---- what is visible ----

  function Visible(s: string): string {
    if s == [] then [] else (if IsSpace(s[0]) then [] else [s[0]]) + Visible(s[1..])
  }

  function VisibleIn(parts: seq<string>): string {
    if parts == [] then [] else VisibleIn(parts[..|parts| - 1]) + Visible(parts[|parts| - 1])
  }

  lemma {:induction false} VisibleSplits(a: string, b: string)
    ensures Visible(a + b) == Visible(a) + Visible(b)
  {
    if a == [] {
      assert a + b == b;
    } else {
      assert (a + b)[1..] == a[1..] + b;
      VisibleSplits(a[1..], b);
    }
  }

  lemma {:induction false} SpaceIsInvisible(s: string)
    requires AllSpace(s)
    ensures Visible(s) == []
  {
    if s != [] {
      SpaceIsInvisible(s[1..]);
    }
  }

  lemma TrimKeepsVisible(s: string)
    ensures Visible(Trim(s)) == Visible(s)
  {
    var lo, hi := TrimIsSlice(s);
    assert s == s[..lo] + s[lo..hi] + s[hi..];
    VisibleSplits(s[..lo] + s[lo..hi], s[hi..]);
    VisibleSplits(s[..lo], s[lo..hi]);
    SpaceIsInvisible(s[..lo]);
    SpaceIsInvisible(s[hi..]);
  }

  lemma {:induction false} VisibleInSplits(a: seq<string>, b: seq<string>)
    ensures VisibleIn(a + b) == VisibleIn(a) + VisibleIn(b)
  {
    if b == [] {
      assert a + b == a;
    } else {
      var last := |b| - 1;
      assert (a + b)[..|a + b| - 1] == a + b[..last] && (a + b)[|a + b| - 1] == b[last];
      VisibleInSplits(a, b[..last]);
      hide Visible;
      assert (VisibleIn(a) + VisibleIn(b[..last])) + Visible(b[last])
          == VisibleIn(a) + (VisibleIn(b[..last]) + Visible(b[last]));
    }
  }

  lemma VisiblePrepend(x: string, l: seq<string>)
    ensures VisibleIn([x] + l) == Visible(x) + VisibleIn(l)
    ensures VisibleIn([x]) == Visible(x) && VisibleIn([]) == [] && Visible("") == ""
  {
    assert [x][..0] == [];
    VisibleInSplits([x], l);
  }

  lemma VisibleOne(c: char)
    ensures Visible([c]) == if IsSpace(c) then [] else [c]
  {
    assert [c][1..] == [];
  }

  lemma VisibleFront(s: string)
    requires s != []
    ensures Visible(s) == (if IsSpace(s[0]) then [] else [s[0]]) + Visible(s[1..])
  {
  }

  /** Moving one character from the rest to what is pending changes nothing in sight. */
  lemma VisibleStep(cur: string, rest: string)
    requires rest != []
    ensures Visible(cur + [rest[0]]) + Visible(rest[1..]) == Visible(cur) + Visible(rest)
    ensures IsSpace(rest[0]) ==> Visible(rest) == Visible(rest[1..])
  {
    VisibleSplits(cur, [rest[0]]);
    VisibleOne(rest[0]);
    VisibleFront(rest);
    hide Visible;
    assert (Visible(cur) + Visible([rest[0]])) + Visible(rest[1..])
        == Visible(cur) + (Visible([rest[0]]) + Visible(rest[1..]));
  }
}
