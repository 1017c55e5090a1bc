/** Splitting a text into sentences, and why splitting undoes joining. */
module Sentences {
  import opened Text

  predicate IsEnd(c: char) {
    c == '.' || c == '!' || c == '?'
  }

  /** An end mark closes a sentence where the text ends or white space follows. */
  predicate Closes(text: string, i: nat)
    requires i < |text|
  {
    IsEnd(text[i]) && (i + 1 == |text| || IsSpace(text[i + 1]))
  }

  function Keep(s: string): seq<string> {
    if s == [] then [] else [s]
  }

  /** The sentences of `cur + rest`, of which `cur` holds no closed one. */
  function Scan(cur: string, rest: string): seq<string>
    decreases |rest|
  {
    if rest == [] then Keep(Trim(cur))
    else if Closes(rest, 0) then Keep(Trim(cur + [rest[0]])) + Scan("", rest[1..])
    else Scan(cur + [rest[0]], rest[1..])
  }

  function Split(text: string): seq<string> {
    Scan("", text)
  }

  lemma ScanStep(text: string, start: nat, index: nat)
    requires start <= index < |text|
    ensures Scan(text[start..index], text[index..]) ==
      if Closes(text, index) then Keep(Trim(text[start..index + 1])) + Scan("", text[index + 1..])
      else Scan(text[start..index + 1], text[index + 1..])
  {
    assert text[index..][1..] == text[index + 1..];
    assert text[start..index] + [text[index]] == text[start..index + 1];
    assert Closes(text[index..], 0) == Closes(text, index);
  }

  method SplitSentences(text: string) returns (result: seq<string>)
    ensures result == Split(text)
  {
    hide Scan, Trim, Closes;
    result := [];
    var start := 0;
    assert text[0..0] == [] && text[0..] == text;
    for index := 0 to |text|
      invariant start <= index
      invariant result + Scan(text[start..index], text[index..]) == Split(text)
    {
      ScanStep(text, start, index);
      if Closes(text, index) {
        var sentence := Trim(text[start..index + 1]);
        if sentence != [] {
          result := result + [sentence];
        }
        start := index + 1;
        assert text[start..index + 1] == [];
      }
    }
    assert text[|text|..] == [] && text[start..|text|] == text[start..];
    var tail := Trim(text[start..]);
    ScanEnd(text[start..]);
    if tail != [] {
      result := result + [tail];
    }
  }

  lemma ScanEnd(cur: string)
    ensures Scan(cur, "") == Keep(Trim(cur))
  {
  }

  // ---- what a sentence looks like ----

  /** No end mark inside is followed by white space. */
  ghost predicate Unbroken(s: string) {
    forall i :: 0 <= i < |s| - 1 ==> !(IsEnd(s[i]) && IsSpace(s[i + 1]))
  }

  ghost predicate IsSentence(s: string) {
    s != [] && IsTrimmed(s) && Unbroken(s)
  }

  ghost predicate IsClosed(s: string) {
    s != [] && IsEnd(s[|s| - 1])
  }

  /** What splitting can produce: only the last sentence may lack its end mark. */
  ghost predicate AreSentences(l: seq<string>) {
    (forall i :: 0 <= i < |l| ==> IsSentence(l[i])) && (forall i :: 0 <= i < |l| - 1 ==> IsClosed(l[i]))
  }

  lemma TrimmedSentence(s: string)
    requires Unbroken(s)
    ensures Trim(s) == [] || IsSentence(Trim(s))
    ensures s != [] && IsEnd(s[|s| - 1]) ==> IsClosed(Trim(s))
  {
    var lo, hi := TrimIsSlice(s);
    forall i | 0 <= i < hi - lo - 1 ensures !(IsEnd(s[lo..hi][i]) && IsSpace(s[lo..hi][i + 1])) {
      assert s[lo..hi][i] == s[lo + i] && s[lo..hi][i + 1] == s[lo + i + 1];
    }
    assert hi < |s| ==> s[hi..][|s| - 1 - hi] == s[|s| - 1];
    assert 0 < lo == |s| ==> s[..lo][|s| - 1] == s[|s| - 1];
  }

  function First(s: string): string {
    if s == [] then [] else [s[0]]
  }

  lemma PrependSentence(x: string, l: seq<string>)
    requires AreSentences(l) && (x == [] || (IsSentence(x) && IsClosed(x)))
    ensures AreSentences(Keep(x) + l)
  {
  }

  lemma SentenceAlone(x: string)
    requires x == [] || IsSentence(x)
    ensures AreSentences(Keep(x))
  {
  }

  lemma {:induction false} ScanGivesSentences(cur: string, rest: string)
    requires Unbroken(cur + First(rest))
    ensures AreSentences(Scan(cur, rest))
    decreases |rest|
  {
    hide AreSentences, IsSentence, Trim, Keep, Unbroken;
    if rest == [] {
      assert cur + First(rest) == cur;
      TrimmedSentence(cur);
      SentenceAlone(Trim(cur));
    } else {
      var next, tail := cur + [rest[0]], rest[1..];
      if Closes(rest, 0) {
        TrimmedSentence(next);
        FirstIsUnbroken(tail);
        ScanGivesSentences("", tail);
        PrependSentence(Trim(next), Scan("", tail));
      } else {
        StillUnbroken(cur, rest);
        ScanGivesSentences(next, tail);
      }
    }
  }

  lemma FirstIsUnbroken(s: string)
    ensures Unbroken("" + First(s))
  {
  }

  lemma StillUnbroken(cur: string, rest: string)
    requires rest != [] && Unbroken(cur + First(rest)) && !Closes(rest, 0)
    ensures Unbroken(cur + [rest[0]] + First(rest[1..]))
  {
    var t := cur + [rest[0]] + First(rest[1..]);
    forall i | 0 <= i < |t| - 1 ensures !(IsEnd(t[i]) && IsSpace(t[i + 1])) {
      if i + 1 <= |cur| {
        assert (cur + First(rest))[i] == t[i] && (cur + First(rest))[i + 1] == t[i + 1];
      }
    }
  }

  lemma SplitGivesSentences(text: string)
    ensures AreSentences(Split(text))
  {
    ScanGivesSentences("", text);
  }

  // ---- what splitting makes of a text ----

  /** The sentences are stretches of the text, in order, with nothing but white space around and between them. */
  ghost predicate IsCutFrom(text: string, l: seq<string>)
    decreases |l|
  {
    if l == [] then AllSpace(text)
    else exists lo: nat, hi: nat :: IsNextCut(text, l[0], lo, hi) && IsCutFrom(text[hi..], l[1..])
  }

  ghost predicate IsNextCut(text: string, x: string, lo: nat, hi: nat) {
    lo <= hi <= |text| && AllSpace(text[..lo]) && text[lo..hi] == x
  }

  lemma SpaceInFront(pre: string, text: string, l: seq<string>)
    requires AllSpace(pre) && IsCutFrom(text, l)
    ensures IsCutFrom(pre + text, l)
  {
    if l != [] {
      var lo: nat, hi: nat :| IsNextCut(text, l[0], lo, hi) && IsCutFrom(text[hi..], l[1..]);
      assert (pre + text)[|pre| + hi..] == text[hi..];
      assert (pre + text)[..|pre| + lo] == pre + text[..lo];
      assert (pre + text)[|pre| + lo..|pre| + hi] == text[lo..hi];
      assert IsNextCut(pre + text, l[0], |pre| + lo, |pre| + hi);
    }
  }

  /** A trimmed first stretch and the sentences of the rest. */
  lemma CutInFront(first: string, text: string, l: seq<string>)
    requires IsCutFrom(text, l)
    ensures IsCutFrom(first + text, Keep(Trim(first)) + l)
  {
    var lo, hi := TrimIsSlice(first);
    if Trim(first) == "" {
      assert first == first[..lo] + first[hi..];
      assert forall i :: 0 <= i < |first| ==> IsSpace(first[i]) by {
        assert forall i :: 0 <= i < lo ==> first[..lo][i] == first[i];
        assert forall i :: hi <= i < |first| ==> first[hi..][i - hi] == first[i];
      }
      SpaceInFront(first, text, l);
      assert [] + l == l;
    } else {
      var all := Keep(Trim(first)) + l;
      SpaceInFront(first[hi..], text, l);
      assert (first + text)[hi..] == first[hi..] + text && all[1..] == l;
      assert (first + text)[..lo] == first[..lo] && (first + text)[lo..hi] == first[lo..hi];
      assert IsNextCut(first + text, all[0], lo, hi);
    }
  }

  lemma {:induction false} ScanCuts(cur: string, rest: string)
    ensures IsCutFrom(cur + rest, Scan(cur, rest))
    decreases |rest|
  {
    hide IsCutFrom, Trim;
    if rest == [] {
      NothingLeft();
      CutInFront(cur, "", []);
      assert Keep(Trim(cur)) + [] == Keep(Trim(cur));
    } else {
      var next := cur + [rest[0]];
      assert next + rest[1..] == cur + rest;
      if Closes(rest, 0) {
        ScanCuts("", rest[1..]);
        assert "" + rest[1..] == rest[1..];
        CutInFront(next, rest[1..], Scan("", rest[1..]));
      } else {
        ScanCuts(next, rest[1..]);
      }
    }
  }

  lemma NothingLeft()
    ensures IsCutFrom("", [])
  {
  }

  /**
   * What splitting means. Nothing but white space is lost; a sentence has text at both ends and no full stop,
   * exclamation or question mark with white space behind it inside; and every sentence but the last ends in such a
   * mark.
   */
  lemma SplitMeans(text: string)
    ensures var l := Split(text);
      && IsCutFrom(text, l)
      && (forall i :: 0 <= i < |l| ==> l[i] != "" && !IsSpace(l[i][0]) && !IsSpace(l[i][|l[i]| - 1]))
      && (forall i, j :: 0 <= i < |l| && 0 <= j < |l[i]| - 1 && IsSpace(l[i][j + 1]) ==> l[i][j] !in ['.', '!', '?'])
      && (forall i :: 0 <= i < |l| - 1 ==> l[i][|l[i]| - 1] in ['.', '!', '?'])
  {
    ScanCuts("", text);
    assert "" + text == text;
    SplitGivesSentences(text);
    hide Scan;
    var l := Split(text);
    forall i | 0 <= i < |l| ensures l[i] != "" && !IsSpace(l[i][0]) && !IsSpace(l[i][|l[i]| - 1]) {
      assert IsSentence(l[i]);
    }
    forall i, j | 0 <= i < |l| && 0 <= j < |l[i]| - 1 && IsSpace(l[i][j + 1]) ensures l[i][j] !in ['.', '!', '?'] {
      assert IsSentence(l[i]);
    }
  }

  // ---- splitting undoes joining ----

  /** Scanning the rest of one sentence delivers that sentence and goes on behind it. */
  lemma {:induction false} ScanSentence(pre: string, s: string, k: nat, after: string)
    requires AllSpace(pre) && IsSentence(s) && k < |s|
    requires after == [] || (IsClosed(s) && IsSpace(after[0]))
    ensures Scan(pre + s[..k], s[k..] + after) == [s] + (if after == [] then [] else Scan("", after))
    decreases |s| - k
  {
    var cur, rest := pre + s[..k], s[k..] + after;
    assert cur + [rest[0]] == pre + s[..k + 1];
    assert rest[1..] == s[k + 1..] + after;
    if k + 1 < |s| {
      assert rest[0] == s[k] && rest[1] == s[k + 1];
      ScanSentence(pre, s, k + 1, after);
    } else {
      assert s[..k + 1] == s && rest[1..] == after;
      TrimAfterSpace(pre, s);
      assert after == [] ==> Scan("", after) == [];
    }
  }

  lemma ScanSpace(rest: string)
    ensures Scan("", " " + rest) == Scan(" ", rest)
  {
    assert (" " + rest)[1..] == rest && "" + [' '] == " ";
  }

  lemma {:induction false} ScanJoined(pre: string, l: seq<string>)
    requires AllSpace(pre) && AreSentences(l) && l != []
    ensures Scan(pre, Join(l)) == l
    decreases |l|
  {
    hide Scan, IsTrimmed, Unbroken;
    assert pre + l[0][..0] == pre;
    if |l| == 1 {
      assert l[0][0..] + "" == l[0];
      ScanSentence(pre, l[0], 0, "");
    } else {
      var after := " " + Join(l[1..]);
      ScanSentence(pre, l[0], 0, after);
      ScanSpace(Join(l[1..]));
      assert l[0][0..] + after == Join(l);
      ScanJoined(" ", l[1..]);
      assert l == [l[0]] + l[1..];
    }
  }

  /** Any sentences that splitting can produce, joined by spaces, split into the same sentences. */
  lemma SplitUndoesJoin(l: seq<string>)
    requires AreSentences(l)
    ensures Split(Join(l)) == l
  {
    if l != [] {
      ScanJoined("", l);
    }
  }

  // ---- sublists ----

  /** The members of l at the positions in s, in order. */
  function Pick(l: seq<string>, s: set<nat>): seq<string> {
    if l == [] then []
    else if |l| - 1 in s then Pick(l[..|l| - 1], s) + [l[|l| - 1]]
    else Pick(l[..|l| - 1], s)
  }

  /** Picking takes exactly the members at the positions in s, in order. */
  lemma {:induction false} PickMeans(l: seq<string>, s: set<nat>) returns (positions: seq<nat>)
    ensures |positions| == |Pick(l, s)|
    ensures forall k :: 0 <= k < |positions| ==> positions[k] < |l| && Pick(l, s)[k] == l[positions[k]]
    ensures forall j, k :: 0 <= j < k < |positions| ==> positions[j] < positions[k]
    ensures forall i: nat :: i in positions <==> i < |l| && i in s
  {
    positions := [];
    if l != [] {
      var last: nat := |l| - 1;
      positions := PickMeans(l[..last], s);
      if last in s {
        positions := positions + [last];
      }
    }
  }

  ghost predicate AllClosed(l: seq<string>) {
    forall i :: 0 <= i < |l| ==> IsClosed(l[i])
  }

  lemma {:induction false} PickedAreSentences(l: seq<string>, s: set<nat>)
    requires AreSentences(l)
    ensures AreSentences(Pick(l, s))
    ensures AllClosed(l) ==> AllClosed(Pick(l, s))
  {
    hide IsSentence, IsClosed;
    if l != [] {
      var front := l[..|l| - 1];
      assert AllClosed(front);
      PickedAreSentences(front, s);
    }
  }

  /** Splitting undoes joining for every sublist of the sentences of a text. */
  lemma SplitUndoesJoinOfSublist(text: string, s: set<nat>)
    ensures Split(Join(Pick(Split(text), s))) == Pick(Split(text), s)
  {
    SplitGivesSentences(text);
    PickedAreSentences(Split(text), s);
    SplitUndoesJoin(Pick(Split(text), s));
  }
}
