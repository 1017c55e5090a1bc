/** The hash-chained ledger: appending, verifying, and what verification detects. */
module Ledger {

  // ---- ideal digests ----

  /** A string in the ledger. Digests and signatures are ideal: each one determines what it was made from. */
  datatype Text =
    | Zeros
    | Plain(text: string)
    | Digest(body: Body)
    | ChampionDigest(candidate: string, promotedFrom: Text, at: int)
    | Signature(key: int, prev: Text, bodyHash: Text)

  datatype Json = Null | Number(n: int) | Str(s: Text) | Record(values: seq<Json>)

  /** The fields that the body digest covers. */
  datatype Body = Body(id: Json, event: Json, payload: Json, prevHash: Json, at: Json)

  /** A parsed ledger line; absent fields are null. */
  datatype Entry = Entry(
    id: Json, event: Json, payload: Json, prevHash: Json, bodyHash: Json, signature: Json, at: Json, hash: Json)
  {
    function Covered(): Body {
      Body(id, event, payload, prevHash, at)
    }
  }

  datatype Line = Unparsable | Parsed(entry: Entry)

  function Entries(lines: seq<Line>): seq<Entry> {
    if lines == [] then []
    else
      var last := lines[|lines| - 1];
      Entries(lines[..|lines| - 1]) + (if last.Parsed? then [last.entry] else [])
  }

  // ---- appending ----

  /** The hash of the last entry; zeros if there is none or it is not a string. */
  function Head(entries: seq<Entry>): Text {
    if entries == [] || !entries[|entries| - 1].hash.Str? then Zeros else entries[|entries| - 1].hash.s
  }

  function MakeEntry(key: int, prev: Text, id: Json, event: string, payload: Json, at: int): Entry {
    var bodyHash := Digest(Body(id, Str(Plain(event)), payload, Str(prev), Number(at)));
    var signature := Signature(key, prev, bodyHash);
    Entry(id, Str(Plain(event)), payload, Str(prev), Str(bodyHash), Str(signature), Number(at), Str(bodyHash))
  }

  // ---- verifying ----

  predicate ChecksOut(key: int, prev: Text, e: Entry) {
    var recomputed := Digest(e.Covered());
    e.prevHash == Str(prev) && e.bodyHash == Str(recomputed) && e.signature == Str(Signature(key, prev, recomputed))
  }

  function NextPrev(prev: Text, e: Entry): Text {
    if e.hash.Str? then e.hash.s else prev
  }

  predicate Verifies(key: int, prev: Text, entries: seq<Entry>)
    decreases |entries|
  {
    entries == [] || (ChecksOut(key, prev, entries[0]) && Verifies(key, NextPrev(prev, entries[0]), entries[1..]))
  }

  class LedgerFile {
    const key: int
    var lines: seq<Line>

    constructor (key: int)
      ensures this.key == key && lines == []
    {
      this.key := key;
      lines := [];
    }

    /** Appends a receipt; `writable` says whether the file could be opened, and a failure goes unreported. */
    method AppendReceipt(event: string, payload: Json, id: Json, at: int, writable: bool) returns (entry: Entry)
      modifies this
      ensures entry == MakeEntry(key, Head(Entries(old(lines))), id, event, payload, at)
      ensures entry.id == id && entry.event == Str(Plain(event)) && entry.payload == payload
      ensures entry.at == Number(at) && entry.hash == entry.bodyHash
      ensures ChecksOut(key, Head(Entries(old(lines))), entry)
      ensures Entries(old(lines)) == [] ==> entry.prevHash == Str(Zeros)
      ensures forall last, before :: Entries(old(lines)) == before + [last] ==>
        entry.prevHash == if last.hash.Str? then last.hash else Str(Zeros)
      ensures lines == if writable then old(lines) + [Parsed(entry)] else old(lines)
      ensures IsBuilt(key, Entries(old(lines))) ==> IsBuilt(key, Entries(lines))
    {
      var entries := Entries(lines);
      var prev := Head(entries);
      entry := MakeEntry(key, prev, id, event, payload, at);
      if writable {
        EntriesAppend(lines, entry);
        if IsBuilt(key, entries) {
          AppendKeepsBuilt(key, entries, id, event, payload, at);
        }
        lines := lines + [Parsed(entry)];
      }
    }

    method VerifyLedger() returns (entries: seq<Entry>, ok: bool)
      ensures entries == Entries(lines) && ok == Verifies(key, Zeros, entries)
    {
      entries := Entries(lines);
      var prev := Zeros;
      ok := true;
      var k := 0;
      assert entries[0..] == entries;
      while k < |entries|
        invariant k <= |entries| && ok
        invariant Verifies(key, Zeros, entries) == Verifies(key, prev, entries[k..])
      {
        var e := entries[k];
        assert entries[k..][1..] == entries[k + 1..];
        if e.prevHash != Str(prev) {
          ok := false;
          break;
        }
        var recomputed := Digest(e.Covered());
        if e.bodyHash != Str(recomputed) {
          ok := false;
          break;
        }
        var expected := Signature(key, prev, recomputed);
        if e.signature != Str(expected) {
          ok := false;
          break;
        }
        prev := if e.hash.Str? then e.hash.s else prev;
        k := k + 1;
      }
    }
  }

  // ---- ledgers that were only ever appended to ----

  /** Verifies, and every entry's hash is its body digest. */
  ghost predicate IsBuilt(key: int, entries: seq<Entry>) {
    Verifies(key, Zeros, entries) && forall i :: 0 <= i < |entries| ==> entries[i].hash == entries[i].bodyHash
  }

  lemma EntriesAppend(lines: seq<Line>, e: Entry)
    ensures Entries(lines + [Parsed(e)]) == Entries(lines) + [e]
    ensures Entries(lines + [Unparsable]) == Entries(lines)
  {
    assert (lines + [Parsed(e)])[..|lines|] == lines && (lines + [Unparsable])[..|lines|] == lines;
  }

  /** The hash expected of the next entry after some entries. */
  function PrevAfter(prev: Text, entries: seq<Entry>): Text
    decreases |entries|
  {
    if entries == [] then prev else PrevAfter(NextPrev(prev, entries[0]), entries[1..])
  }

  lemma {:induction false} VerifiesInParts(key: int, prev: Text, a: seq<Entry>, b: seq<Entry>)
    ensures Verifies(key, prev, a + b) <==> Verifies(key, prev, a) && Verifies(key, PrevAfter(prev, a), b)
    decreases |a|
  {
    if a == [] {
      assert a + b == b;
    } else {
      assert (a + b)[1..] == a[1..] + b;
      VerifiesInParts(key, NextPrev(prev, a[0]), a[1..], b);
    }
  }

  lemma {:induction false} PrevAfterLast(prev: Text, entries: seq<Entry>)
    requires entries != [] && entries[|entries| - 1].hash.Str?
    ensures PrevAfter(prev, entries) == entries[|entries| - 1].hash.s
    decreases |entries|
  {
    if |entries| > 1 {
      PrevAfterLast(NextPrev(prev, entries[0]), entries[1..]);
    } else {
      assert entries[1..] == [];
    }
  }

  /** In a built ledger entry i checks out against the hash of entry i - 1, and its own hash is its digest. */
  lemma BuiltEntry(key: int, entries: seq<Entry>, i: nat)
    requires IsBuilt(key, entries) && i < |entries|
    ensures ChecksOut(key, Head(entries[..i]), entries[i])
    ensures entries[i].hash == entries[i].bodyHash == Str(Digest(entries[i].Covered()))
    ensures PrevAfter(Zeros, entries[..i]) == Head(entries[..i])
    ensures IsBuilt(key, entries[..i])
    decreases i
  {
    var a, b := entries[..i], entries[i..];
    assert a + b == entries && b[0] == entries[i];
    VerifiesInParts(key, Zeros, a, b);
    if i > 0 {
      BuiltEntry(key, entries, i - 1);
      PrevAfterLast(Zeros, a);
    }
  }

  lemma AppendKeepsBuilt(key: int, entries: seq<Entry>, id: Json, event: string, payload: Json, at: int)
    requires IsBuilt(key, entries)
    ensures IsBuilt(key, entries + [MakeEntry(key, Head(entries), id, event, payload, at)])
  {
    var e := MakeEntry(key, Head(entries), id, event, payload, at);
    BuiltPrev(key, entries);
    VerifiesInParts(key, Zeros, entries, [e]);
    assert [e][1..] == [];
  }

  lemma BuiltPrev(key: int, entries: seq<Entry>)
    requires IsBuilt(key, entries)
    ensures PrevAfter(Zeros, entries) == Head(entries)
  {
    if entries != [] {
      BuiltEntry(key, entries, |entries| - 1);
      PrevAfterLast(Zeros, entries);
    }
  }

  // ---- chains never bend back ----

  /** How many digests of ledger bodies are stacked on one another. */
  function Depth(t: Text): nat {
    if t.Digest? then 1 + (if t.body.prevHash.Str? then Depth(t.body.prevHash.s) else 0) else 0
  }

  lemma {:induction false} HeadDepth(key: int, entries: seq<Entry>, i: nat)
    requires IsBuilt(key, entries) && i <= |entries|
    ensures Depth(Head(entries[..i])) == i
  {
    if i > 0 {
      HeadDepth(key, entries, i - 1);
      BuiltEntry(key, entries, i - 1);
    }
  }

  // ---- what the head hash says ----

  /** The head hash of a built ledger determines its whole content. */
  lemma {:induction false} HeadDeterminesLedger(key: int, a: seq<Entry>, b: seq<Entry>)
    requires IsBuilt(key, a) && IsBuilt(key, b) && Head(a) == Head(b)
    ensures a == b
    decreases |a|
  {
    HeadDepth(key, a, |a|);
    HeadDepth(key, b, |b|);
    assert a[..|a|] == a && b[..|b|] == b;
    if a != [] {
      var last := |a| - 1;
      BuiltEntry(key, a, last);
      BuiltEntry(key, b, last);
      HeadDeterminesLedger(key, a[..last], b[..last]);
      assert a == a[..last] + [a[last]] && b == b[..last] + [b[last]];
    }
  }

  // ---- what verification detects ----

  datatype Field = FId | FEvent | FPayload | FPrevHash | FBodyHash | FSignature | FAt | FHash

  function Edit(e: Entry, f: Field, v: Json): Entry {
    match f
    case FId => e.(id := v)
    case FEvent => e.(event := v)
    case FPayload => e.(payload := v)
    case FPrevHash => e.(prevHash := v)
    case FBodyHash => e.(bodyHash := v)
    case FSignature => e.(signature := v)
    case FAt => e.(at := v)
    case FHash => e.(hash := v)
  }

  /** Changing one field of one entry goes unnoticed exactly for the hash field of the last entry. */
  lemma EditIsNoticed(key: int, l: seq<Entry>, i: nat, f: Field, v: Json)
    requires IsBuilt(key, l) && i < |l| && Edit(l[i], f, v) != l[i]
    ensures Verifies(key, Zeros, l[i := Edit(l[i], f, v)]) <==> f == FHash && i == |l| - 1
  {
    var e := Edit(l[i], f, v);
    var edited := l[i := e];
    var a, b := l[..i], l[i + 1..];
    assert edited == a + ([e] + b);
    VerifiesInParts(key, Zeros, a, [e] + b);
    BuiltEntry(key, l, i);
    assert ([e] + b)[1..] == b;
    if f == FHash && b != [] {
      NextIsBroken(key, l, i, e);
    }
  }

  /** The entry after an entry whose hash was changed no longer follows it. */
  lemma NextIsBroken(key: int, l: seq<Entry>, i: nat, e: Entry)
    requires IsBuilt(key, l) && i + 1 < |l| && e.hash != l[i].hash
    ensures l[i + 1].prevHash != Str(NextPrev(Head(l[..i]), e))
  {
    BuiltEntry(key, l, i);
    BuiltEntry(key, l, i + 1);
    HeadDepth(key, l, i);
    HeadDepth(key, l, i + 1);
    assert l[..i + 1][i] == l[i];
  }

  /** An entry of a built ledger follows a head of that ledger only in its own place. */
  lemma PlaceOfEntry(key: int, l: seq<Entry>, i: nat, k: nat)
    requires IsBuilt(key, l) && i <= |l| && k < |l| && ChecksOut(key, Head(l[..i]), l[k])
    ensures k == i
  {
    BuiltEntry(key, l, k);
    HeadDepth(key, l, i);
    HeadDepth(key, l, k);
  }

  /** A ledger put together from entries of a built one, in any order and number, verifies exactly if it is a prefix. */
  lemma {:induction false} OnlyPrefixesVerify(key: int, l: seq<Entry>, m: seq<Entry>)
    requires IsBuilt(key, l)
    requires forall j :: 0 <= j < |m| ==> m[j] in l
    ensures Verifies(key, Zeros, m) <==> m <= l
    decreases |m|
  {
    if m != [] {
      var last := |m| - 1;
      var front := m[..last];
      assert m == front + [m[last]];
      OnlyPrefixesVerify(key, l, front);
      VerifiesInParts(key, Zeros, front, [m[last]]);
      assert [m[last]][1..] == [];
      if front <= l {
        assert front == l[..last];
        PrefixIsBuilt(key, l, last);
        BuiltPrev(key, front);
        var k :| 0 <= k < |l| && l[k] == m[last];
        if ChecksOut(key, Head(front), m[last]) {
          PlaceOfEntry(key, l, last, k);
        }
        if m <= l {
          BuiltEntry(key, l, last);
        }
      }
    }
  }

  lemma PrefixIsBuilt(key: int, l: seq<Entry>, i: nat)
    requires IsBuilt(key, l) && i <= |l|
    ensures IsBuilt(key, l[..i])
  {
    if i < |l| {
      BuiltEntry(key, l, i);
    } else {
      assert l[..i] == l;
    }
  }

  /** Removing an entry is noticed unless it was the last. */
  lemma RemovalIsNoticed(key: int, l: seq<Entry>, i: nat)
    requires IsBuilt(key, l) && i < |l|
    ensures Verifies(key, Zeros, l[..i] + l[i + 1..]) <==> i == |l| - 1
  {
    var m := l[..i] + l[i + 1..];
    OnlyPrefixesVerify(key, l, m);
    if i < |l| - 1 {
      assert m[i] == l[i + 1];
      AllDistinct(key, l, i, i + 1);
    }
  }

  /** Exchanging two entries is always noticed. */
  lemma ExchangeIsNoticed(key: int, l: seq<Entry>, i: nat, j: nat)
    requires IsBuilt(key, l) && i < j < |l|
    ensures !Verifies(key, Zeros, l[i := l[j]][j := l[i]])
  {
    var m := l[i := l[j]][j := l[i]];
    OnlyPrefixesVerify(key, l, m);
    AllDistinct(key, l, i, j);
    assert m[i] == l[j];
  }

  lemma AllDistinct(key: int, l: seq<Entry>, i: nat, j: nat)
    requires IsBuilt(key, l) && i < j < |l|
    ensures l[i] != l[j]
  {
    BuiltEntry(key, l, i);
    BuiltEntry(key, l, j);
    HeadDepth(key, l, i);
    HeadDepth(key, l, j);
  }

  // ---- signatures that were issued ----

  /** Every signature in m was issued for some entry of l. */
  ghost predicate SignedFrom(m: seq<Entry>, l: seq<Entry>) {
    forall j :: 0 <= j < |m| ==> exists k :: 0 <= k < |l| && m[j].signature == l[k].signature
  }

  /**
   * Among the ledgers that verify with signatures issued for l, the prefixes of l are exactly those in which every
   * hash equals its body digest. Verification itself does not compare the two.
   */
  lemma IssuedSignatures(key: int, l: seq<Entry>, m: seq<Entry>)
    requires IsBuilt(key, l) && Verifies(key, Zeros, m) && SignedFrom(m, l)
    ensures m <= l <==> forall j :: 0 <= j < |m| ==> m[j].hash == m[j].bodyHash
  {
    if m <= l {
      assert forall j :: 0 <= j < |m| ==> m[j] == l[j];
    }
    if forall j :: 0 <= j < |m| ==> m[j].hash == m[j].bodyHash {
      forall j | 0 <= j < |m| ensures m[j] in l {
        var k :| 0 <= k < |l| && m[j].signature == l[k].signature;
        BuiltEntry(key, m, j);
        BuiltEntry(key, l, k);
      }
      OnlyPrefixesVerify(key, l, m);
    }
  }

  /** From any entry on, a built ledger continues behind whatever hands on the hash of the entry before. */
  lemma BuiltFrom(key: int, l: seq<Entry>, j: nat)
    requires IsBuilt(key, l) && j < |l|
    ensures Verifies(key, Head(l[..j]), l[j..])
  {
    assert l[..j] + l[j..] == l;
    VerifiesInParts(key, Zeros, l[..j], l[j..]);
    BuiltEntry(key, l, j);
  }

  /**
   * Without that equality any run of entries can be cut out unnoticed: give the hash field of the entry before the
   * gap the hash of the last entry that was cut out.
   */
  lemma HashFieldIsFree(key: int, l: seq<Entry>, i: nat, j: nat)
    requires IsBuilt(key, l) && i + 1 < j < |l|
    ensures var m := l[..i] + [l[i].(hash := l[j - 1].hash)] + l[j..];
      Verifies(key, Zeros, m) && SignedFrom(m, l) && !(m <= l)
  {
    var e, rest := l[i].(hash := l[j - 1].hash), l[j..];
    var m := l[..i] + [e] + rest;
    assert m == l[..i] + ([e] + rest) && ([e] + rest)[1..] == rest;
    VerifiesInParts(key, Zeros, l[..i], [e] + rest);
    BuiltEntry(key, l, i);
    BuiltEntry(key, l, j - 1);
    BuiltFrom(key, l, j);
    assert l[..j][j - 1] == l[j - 1];
    forall k | 0 <= k < |m| ensures exists n :: 0 <= n < |l| && m[k].signature == l[n].signature {
      assert m[k].signature == l[if k <= i then k else k - i - 1 + j].signature;
    }
    assert m[i + 1] == l[j];
    AllDistinct(key, l, i + 1, j);
  }
}
