/** Sentence-aware chunking of a text to a limit on words. */
module Chunker {
  import opened Options
  import opened Text

  // ---- words and visible characters ----

  function KeepWord(s: string): seq<string> {
    if s == [] then [] else [s]
  }

  /** The words of `cur + rest`, where `cur` is the start of a word. */
  function WordsFrom(cur: string, rest: string): seq<string>
    decreases |rest|
  {
    if rest == [] then KeepWord(cur)
    else if IsSpace(rest[0]) then KeepWord(cur) + WordsFrom("", rest[1..])
    else WordsFrom(cur + [rest[0]], rest[1..])
  }

  /** The maximal runs of visible characters. */
  function Words(s: string): seq<string> {
    WordsFrom("", s)
  }

  predicate IsWord(w: string) {
    w != [] && forall i :: 0 <= i < |w| ==> !IsSpace(w[i])
  }

  ghost predicate AreWords(ws: seq<string>) {
    forall i :: 0 <= i < |ws| ==> IsWord(ws[i])
  }

  lemma {:induction false} WordsAcrossSpace(cur: string, a: string, c: char, b: string)
    requires IsSpace(c)
    ensures WordsFrom(cur, a + [c] + b) == WordsFrom(cur, a) + Words(b)
    decreases |a|
  {
    var t := a + [c] + b;
    if a == [] {
      assert t[1..] == b;
    } else {
      assert t[1..] == a[1..] + [c] + b;
      WordsAcrossSpace(if IsSpace(a[0]) then "" else cur + [a[0]], a[1..], c, b);
    }
  }

  lemma {:induction false} OneWord(cur: string, rest: string)
    requires IsWord(cur + rest)
    ensures WordsFrom(cur, rest) == [cur + rest]
    decreases |rest|
  {
    if rest == [] {
      assert cur + rest == cur;
    } else {
      assert (cur + rest)[|cur|] == rest[0];
      assert cur + [rest[0]] + rest[1..] == cur + rest;
      OneWord(cur + [rest[0]], rest[1..]);
    }
  }

  lemma {:induction false} WordsAreWords(cur: string, rest: string)
    requires cur == [] || IsWord(cur)
    ensures AreWords(WordsFrom(cur, rest))
    decreases |rest|
  {
    if rest != [] {
      WordsAreWords(if IsSpace(rest[0]) then "" else cur + [rest[0]], rest[1..]);
    }
  }

  lemma {:induction false} WordsOfJoin(ws: seq<string>)
    requires AreWords(ws)
    ensures Words(Join(ws)) == ws
  {
    if |ws| == 1 {
      assert "" + ws[0] == ws[0];
      OneWord("", ws[0]);
    } else if |ws| > 1 {
      assert "" + ws[0] == ws[0];
      OneWord("", ws[0]);
      WordsOfJoin(ws[1..]);
      assert Join(ws) == ws[0] + [' '] + Join(ws[1..]);
      WordsAcrossSpace("", ws[0], ' ', Join(ws[1..]));
    }
  }

  lemma {:induction false} WordsHoldVisible(cur: string, rest: string)
    requires cur == [] || IsWord(cur)
    ensures VisibleIn(WordsFrom(cur, rest)) == Visible(cur) + Visible(rest)
    decreases |rest|
  {
    hide Visible, VisibleIn;
    if rest == [] {
      VisiblePrepend(cur, []);
    } else {
      VisibleStep(cur, rest);
      if IsSpace(rest[0]) {
        WordsHoldVisible("", rest[1..]);
        VisiblePrepend(cur, WordsFrom("", rest[1..]));
        if cur == [] {
          assert KeepWord(cur) + WordsFrom("", rest[1..]) == WordsFrom("", rest[1..]);
        }
      } else {
        WordsHoldVisible(cur + [rest[0]], rest[1..]);
      }
    }
  }

  // ---- first loop: sentences ----

  predicate EndsPiece(c: char) {
    c == '.' || c == '!' || c == '?' || c == '\n'
  }

  /** The text after `cur`, cut behind every mark and line end; a blank rest is dropped. */
  function Pieces(cur: string, rest: string): seq<string>
    decreases |rest|
  {
    if rest == [] then (if Trim(cur) == [] then [] else [cur])
    else if EndsPiece(rest[0]) then [cur + [rest[0]]] + Pieces("", rest[1..])
    else Pieces(cur + [rest[0]], rest[1..])
  }

  method CutPieces(text: string) returns (sentences: seq<string>)
    ensures sentences == Pieces("", text)
  {
    sentences := [];
    var cur := "";
    for k := 0 to |text|
      invariant sentences + Pieces(cur, text[k..]) == Pieces("", text)
    {
      var ch := text[k];
      assert text[k..][1..] == text[k + 1..];
      cur := cur + [ch];
      if EndsPiece(ch) {
        sentences := sentences + [cur];
        cur := "";
      }
    }
    assert text[|text|..] == [];
    if Trim(cur) != [] {
      sentences := sentences + [cur];
    }
  }

  lemma {:induction false} PiecesHoldVisible(cur: string, rest: string)
    ensures VisibleIn(Pieces(cur, rest)) == Visible(cur) + Visible(rest)
    decreases |rest|
  {
    hide Visible, VisibleIn, Trim;
    if rest == [] {
      TrimKeepsVisible(cur);
      VisiblePrepend(cur, []);
    } else {
      var next := cur + [rest[0]];
      VisibleStep(cur, rest);
      if EndsPiece(rest[0]) {
        PiecesHoldVisible("", rest[1..]);
        VisiblePrepend(next, Pieces("", rest[1..]));
      } else {
        PiecesHoldVisible(next, rest[1..]);
      }
    }
  }

  /** A piece: no mark or line end but perhaps as its last character. */
  ghost predicate IsPiece(s: string) {
    forall j :: 0 <= j < |s| - 1 ==> s[j] !in ['.', '!', '?', '\n']
  }

  ghost predicate IsEnded(s: string) {
    s != "" && s[|s| - 1] in ['.', '!', '?', '\n']
  }

  ghost predicate ArePieces(pieces: seq<string>) {
    && (forall i :: 0 <= i < |pieces| ==> pieces[i] != "" && IsPiece(pieces[i]))
    && (forall i :: 0 <= i < |pieces| - 1 ==> IsEnded(pieces[i]))
  }

  function Concat(pieces: seq<string>): string {
    if pieces == [] then "" else pieces[0] + Concat(pieces[1..])
  }

  /** What `cur` may be: text without any mark or line end. */
  ghost predicate IsOpen(cur: string) {
    forall j :: 0 <= j < |cur| ==> cur[j] !in ['.', '!', '?', '\n']
  }

  lemma PieceInFront(x: string, pieces: seq<string>)
    requires IsPiece(x) && IsEnded(x) && ArePieces(pieces)
    ensures ArePieces([x] + pieces) && Concat([x] + pieces) == x + Concat(pieces)
  {
    assert ([x] + pieces)[1..] == pieces;
  }

  lemma LastPiece(cur: string) returns (tail: string)
    requires IsOpen(cur)
    ensures ArePieces(Pieces(cur, ""))
    ensures cur == Concat(Pieces(cur, "")) + tail && AllSpace(tail)
  {
    hide Trim;
    EmptyIsBlank();
    if Trim(cur) == "" {
      BlankIsSpace(cur);
      tail := cur;
      assert Concat([]) + cur == cur;
    } else {
      tail := "";
      assert [cur][1..] == [];
      assert Concat([cur]) == cur + Concat([]);
      assert cur + "" + "" == cur;
    }
  }

  lemma PieceEnds(next: string, pieces: seq<string>, after: string, tail: string)
    requires IsPiece(next) && IsEnded(next) && ArePieces(pieces) && after == Concat(pieces) + tail
    ensures ArePieces([next] + pieces) && next + after == Concat([next] + pieces) + tail
  {
    PieceInFront(next, pieces);
    hide Concat, ArePieces;
    assert next + (Concat(pieces) + tail) == (next + Concat(pieces)) + tail;
  }

  lemma OpenGrows(cur: string, c: char)
    requires IsOpen(cur)
    ensures IsPiece(cur + [c])
    ensures EndsPiece(c) ==> IsEnded(cur + [c])
    ensures !EndsPiece(c) ==> IsOpen(cur + [c])
  {
  }

  lemma {:induction false} PiecesCut(cur: string, rest: string) returns (tail: string)
    requires IsOpen(cur)
    ensures ArePieces(Pieces(cur, rest))
    ensures cur + rest == Concat(Pieces(cur, rest)) + tail && AllSpace(tail)
    decreases |rest|
  {
    hide Trim, AllSpace, ArePieces, Concat, IsPiece, IsEnded;
    if rest == [] {
      assert cur + rest == cur;
      tail := LastPiece(cur);
    } else {
      var next, after := cur + [rest[0]], rest[1..];
      assert cur + rest == next + after;
      OpenGrows(cur, rest[0]);
      if EndsPiece(rest[0]) {
        tail := PiecesCut("", after);
        assert "" + after == after;
        hide IsOpen, EndsPiece;
        PieceEnds(next, Pieces("", after), after, tail);
      } else {
        hide IsOpen;
        tail := PiecesCut(next, after);
      }
    }
  }

  lemma BlankIsSpace(s: string)
    requires Trim(s) == ""
    ensures AllSpace(s)
  {
    var lo, hi := TrimIsSlice(s);
    forall i | 0 <= i < |s| ensures IsSpace(s[i]) {
      assert i < lo ==> s[..lo][i] == s[i];
      assert i >= hi ==> s[hi..][i - hi] == s[i];
    }
  }

  lemma EmptyIsBlank()
    ensures Trim("") == ""
  {
  }

  /**
   * What the first loop makes of a text: pieces that end where a full stop, exclamation mark, question mark or line
   * end stands, and nowhere else, and that together are the text up to a blank tail.
   */
  lemma PiecesMean(text: string) returns (tail: string)
    ensures var pieces := Pieces("", text);
      && text == Concat(pieces) + tail && AllSpace(tail)
      && (forall i, j :: 0 <= i < |pieces| && 0 <= j < |pieces[i]| - 1 ==> pieces[i][j] !in ['.', '!', '?', '\n'])
      && (forall i :: 0 <= i < |pieces| ==> pieces[i] != "")
      && (forall i :: 0 <= i < |pieces| - 1 ==> pieces[i][|pieces[i]| - 1] in ['.', '!', '?', '\n'])
  {
    tail := PiecesCut("", text);
    assert "" + text == text;
    hide Pieces;
    var pieces := Pieces("", text);
    forall i, j | 0 <= i < |pieces| && 0 <= j < |pieces[i]| - 1 ensures pieces[i][j] !in ['.', '!', '?', '\n'] {
      assert IsPiece(pieces[i]);
    }
  }

  // ---- second loop: packing ----

  /** The words of the parts, one part after the other. */
  function WordsIn(parts: seq<string>): seq<string> {
    if parts == [] then [] else WordsIn(parts[..|parts| - 1]) + Words(parts[|parts| - 1])
  }

  lemma {:induction false} WordsInSplits(a: seq<string>, b: seq<string>)
    ensures WordsIn(a + b) == WordsIn(a) + WordsIn(b)
  {
    hide WordsFrom;
    if b == [] {
      assert a + b == a;
    } else {
      var last := |b| - 1;
      assert (a + b)[..|a + b| - 1] == a + b[..last] && (a + b)[|a + b| - 1] == b[last];
      WordsInSplits(a, b[..last]);
      hide Words;
      assert (WordsIn(a) + WordsIn(b[..last])) + Words(b[last]) == WordsIn(a) + (WordsIn(b[..last]) + Words(b[last]));
    }
  }

  lemma WordsInOne(x: string)
    ensures WordsIn([x]) == Words(x) && WordsIn([]) == [] && Words("") == []
  {
    assert [x][..0] == [];
    assert WordsIn([x]) == WordsIn([]) + Words(x);
  }

  /** The words of the parts hold exactly what is visible in them. */
  lemma {:induction false} WordsInHoldVisible(parts: seq<string>)
    ensures VisibleIn(WordsIn(parts)) == VisibleIn(parts)
  {
    if parts == [] {
      assert WordsIn(parts) == parts;
    } else {
      var front, last := parts[..|parts| - 1], parts[|parts| - 1];
      WordsInHoldVisible(front);
      LastHoldsVisible(front, last);
      assert parts == front + [last];
    }
  }

  lemma LastHoldsVisible(front: seq<string>, last: string)
    requires VisibleIn(WordsIn(front)) == VisibleIn(front)
    ensures VisibleIn(WordsIn(front + [last])) == VisibleIn(front + [last])
  {
    hide Visible, VisibleIn, WordsIn, WordsFrom;
    WordsInSplits(front, [last]);
    WordsInOne(last);
    VisibleInSplits(WordsIn(front), Words(last));
    WordsHoldVisible("", last);
    VisiblePrepend(last, []);
    VisibleInSplits(front, [last]);
    assert "" + Visible(last) == Visible(last);
  }

  /** Joining by spaces keeps every word. */
  lemma {:induction false} WordsOfJoined(parts: seq<string>)
    ensures Words(Join(parts)) == WordsIn(parts)
  {
    hide WordsFrom, WordsIn;
    if |parts| == 0 {
      WordsInOne("");
    } else {
      WordsInOne(parts[0]);
      WordsInSplits([parts[0]], parts[1..]);
      assert parts == [parts[0]] + parts[1..];
      if |parts| > 1 {
        WordsOfJoined(parts[1..]);
        WordsAcrossSpace("", parts[0], ' ', Join(parts[1..]));
        assert Join(parts) == parts[0] + [' '] + Join(parts[1..]);
      } else {
        assert parts == [parts[0]];
      }
    }
  }

  /** The trimmed pieces that are not blank. */
  function Sentences(pieces: seq<string>): seq<string> {
    if pieces == [] then [] else Sentences(pieces[..|pieces| - 1]) + KeepWord(Trim(pieces[|pieces| - 1]))
  }

  function MaxWords(limit: nat): (r: nat)
    ensures r > 0
  {
    if limit == 0 then 1 else limit
  }

  /** Runs of `size` words, the last one possibly shorter, each joined by spaces. */
  function Runs(words: seq<string>, size: nat): seq<string>
    requires size > 0
    decreases |words|
  {
    if words == [] then []
    else if |words| <= size then [Join(words)]
    else [Join(words[..size])] + Runs(words[size..], size)
  }

  /** What becomes chunks together: sentences in a row, or one sentence that is over the limit by itself. */
  datatype Block = Whole(sents: seq<string>) | Oversized(sent: string) {
    function Sents(): seq<string> {
      if Whole? then sents else [sent]
    }

    /** Sentences in a row are one chunk; an oversized sentence is cut into runs of words. */
    function Chunks(limit: nat): seq<string> {
      if Whole? then [Join(sents)] else Runs(Words(sent), MaxWords(limit))
    }

    ghost predicate Valid(limit: nat) {
      if Whole? then sents != [] && |WordsIn(sents)| <= limit else |Words(sent)| > limit
    }
  }

  function SentsOf(blocks: seq<Block>): seq<string> {
    if blocks == [] then [] else SentsOf(blocks[..|blocks| - 1]) + blocks[|blocks| - 1].Sents()
  }

  function ChunksOf(blocks: seq<Block>, limit: nat): seq<string> {
    if blocks == [] then [] else ChunksOf(blocks[..|blocks| - 1], limit) + blocks[|blocks| - 1].Chunks(limit)
  }

  /** The first sentence of the next block would not have fitted into this one. */
  ghost predicate IsFull(b: Block, next: Block, limit: nat) {
    b.Whole? ==> next.Sents() != [] && |WordsIn(b.sents)| + |Words(next.Sents()[0])| > limit
  }

  /** The sentences cut greedily into blocks: nothing is left out, and a block ends only where it is full. */
  ghost predicate IsCut(blocks: seq<Block>, sents: seq<string>, limit: nat) {
    && SentsOf(blocks) == sents
    && (forall i :: 0 <= i < |blocks| ==> blocks[i].Valid(limit))
    && (forall i :: 0 <= i < |blocks| - 1 ==> IsFull(blocks[i], blocks[i + 1], limit))
  }

  lemma AppendBlock(blocks: seq<Block>, b: Block, limit: nat)
    ensures SentsOf(blocks + [b]) == SentsOf(blocks) + b.Sents()
    ensures ChunksOf(blocks + [b], limit) == ChunksOf(blocks, limit) + b.Chunks(limit)
  {
    assert (blocks + [b])[..|blocks|] == blocks;
  }

  /** A cut grows by a block if the block before it is full. */
  lemma CutGrows(blocks: seq<Block>, sents: seq<string>, b: Block, limit: nat)
    requires IsCut(blocks, sents, limit) && b.Valid(limit)
    requires blocks != [] ==> IsFull(blocks[|blocks| - 1], b, limit)
    ensures IsCut(blocks + [b], sents + b.Sents(), limit)
  {
    AppendBlock(blocks, b, limit);
    hide Block.Valid, IsFull, SentsOf, ChunksOf, Block.Sents, Block.Chunks;
    var longer := blocks + [b];
    forall i | 0 <= i < |longer| ensures longer[i].Valid(limit) {
      assert i < |blocks| ==> blocks[i].Valid(limit);
    }
    forall i | 0 <= i < |longer| - 1 ensures IsFull(longer[i], longer[i + 1], limit) {
      if i < |blocks| - 1 {
        assert IsFull(blocks[i], blocks[i + 1], limit);
      }
    }
  }

  /** The last block takes one more sentence that fits. */
  lemma LastTakes(blocks: seq<Block>, sents: seq<string>, pending: seq<string>, sent: string, limit: nat)
    requires pending != [] && IsCut(blocks + [Whole(pending)], sents, limit)
    requires |WordsIn(pending)| + |Words(sent)| <= limit
    ensures IsCut(blocks + [Whole(pending + [sent])], sents + [sent], limit)
  {
    hide WordsFrom, WordsIn;
    var was, now := blocks + [Whole(pending)], blocks + [Whole(pending + [sent])];
    AppendBlock(blocks, Whole(pending), limit);
    AppendBlock(blocks, Whole(pending + [sent]), limit);
    WordsInSplits(pending, [sent]);
    WordsInOne(sent);
    forall i | 0 <= i < |now| - 1 ensures IsFull(now[i], now[i + 1], limit) {
      assert IsFull(was[i], was[i + 1], limit);
    }
    forall i | 0 <= i < |now| ensures now[i].Valid(limit) {
      assert was[i].Valid(limit);
    }
    assert SentsOf(blocks) + (pending + [sent]) == (SentsOf(blocks) + pending) + [sent];
  }

  /** An oversized sentence is cut into runs of words. */
  method HardSplit(words: seq<string>, size: nat) returns (pieces: seq<string>)
    requires size > 0
    ensures pieces == Runs(words, size)
  {
    pieces := [];
    var at := 0;
    assert words[0..] == words;
    while at < |words|
      invariant 0 <= at <= |words|
      invariant pieces + Runs(words[at..], size) == Runs(words, size)
    {
      var end := if at + size <= |words| then at + size else |words|;
      assert words[at..][..end - at] == words[at..end] && words[at..][end - at..] == words[end..];
      assert end == |words| ==> words[at..] == words[at..end];
      pieces := pieces + [Join(words[at..end])];
      at := end;
    }
  }

  // ---- what the chunks of a cut are ----

  /** A chunk holds something and not too much. */
  ghost predicate Fits(c: string, limit: nat) {
    1 <= |Words(c)| && (|Words(c)| <= limit || (limit == 0 && |Words(c)| == 1))
  }

  ghost predicate AllFit(chunks: seq<string>, limit: nat) {
    forall i :: 0 <= i < |chunks| ==> Fits(chunks[i], limit)
  }

  /** No two neighbouring chunks would fit into one. */
  ghost predicate Packed(chunks: seq<string>, limit: nat) {
    forall i :: 0 <= i < |chunks| - 1 ==> |Words(chunks[i])| + |Words(chunks[i + 1])| > limit
  }

  /** The runs of some words hold these words in order, and each run has a proper size. */
  lemma {:induction false} RunsHoldWords(words: seq<string>, size: nat)
    requires size > 0 && AreWords(words)
    ensures WordsIn(Runs(words, size)) == words
    ensures forall i :: 0 <= i < |Runs(words, size)| ==> 1 <= |Words(Runs(words, size)[i])| <= size
    ensures forall i :: 0 <= i < |Runs(words, size)| - 1 ==> |Words(Runs(words, size)[i])| == size
    decreases |words|
  {
    hide WordsFrom, WordsIn, Words;
    if words == [] {
      WordsInOne("");
    } else if |words| <= size {
      WordsInOne(Join(words));
      WordsOfJoin(words);
    } else {
      var run, rest := words[..size], words[size..];
      WordsInOne(Join(run));
      WordsOfJoin(run);
      RunsHoldWords(rest, size);
      WordsInSplits([Join(run)], Runs(rest, size));
      assert run + rest == words;
    }
  }

  lemma BlockHoldsWords(b: Block, limit: nat)
    ensures WordsIn(b.Chunks(limit)) == WordsIn(b.Sents())
  {
    hide WordsFrom, WordsIn;
    match b
    case Whole(sents) =>
      WordsInOne(Join(sents));
      WordsOfJoined(sents);
    case Oversized(sent) =>
      WordsInOne(sent);
      WordsAreWords("", sent);
      RunsHoldWords(Words(sent), MaxWords(limit));
  }

  /** The words of the chunks, in order, are the words of the sentences, in order. */
  lemma {:induction false} ChunksHoldWords(blocks: seq<Block>, limit: nat)
    ensures WordsIn(ChunksOf(blocks, limit)) == WordsIn(SentsOf(blocks))
  {
    hide WordsFrom, WordsIn, Block.Chunks, Block.Sents;
    if blocks != [] {
      var front, b := blocks[..|blocks| - 1], blocks[|blocks| - 1];
      ChunksHoldWords(front, limit);
      BlockHoldsWords(b, limit);
      WordsInSplits(ChunksOf(front, limit), b.Chunks(limit));
      WordsInSplits(SentsOf(front), b.Sents());
    }
  }

  /** Every sentence is trimmed and not blank. */
  ghost predicate AllVisible(sents: seq<string>) {
    forall i :: 0 <= i < |sents| ==> sents[i] != "" && IsTrimmed(sents[i])
  }

  lemma VisibleMeansWords(s: string)
    requires s != "" && IsTrimmed(s)
    ensures |Words(s)| >= 1
  {
    WordsHoldVisible("", s);
    assert Visible(s) != [];
  }

  lemma BlockFits(b: Block, limit: nat)
    requires b.Valid(limit) && AllVisible(b.Sents())
    ensures AllFit(b.Chunks(limit), limit)
  {
    hide WordsFrom, Visible;
    match b
    case Whole(sents) =>
      WordsOfJoined(sents);
      VisibleMeansWords(sents[0]);
      WordsInOne(sents[0]);
      WordsInSplits([sents[0]], sents[1..]);
      assert [sents[0]] + sents[1..] == sents;
    case Oversized(sent) =>
      WordsAreWords("", sent);
      RunsHoldWords(Words(sent), MaxWords(limit));
  }

  /** No chunk of a cut is blank or over the limit. */
  lemma {:induction false} ChunksFit(blocks: seq<Block>, limit: nat)
    requires (forall i :: 0 <= i < |blocks| ==> blocks[i].Valid(limit)) && AllVisible(SentsOf(blocks))
    ensures AllFit(ChunksOf(blocks, limit), limit)
  {
    hide Fits, Block.Valid, IsTrimmed, Block.Chunks, Block.Sents;
    if blocks != [] {
      var front, b := blocks[..|blocks| - 1], blocks[|blocks| - 1];
      PartsVisible(SentsOf(front), b.Sents());
      ChunksFit(front, limit);
      BlockFits(b, limit);
    }
  }

  lemma PartsVisible(a: seq<string>, b: seq<string>)
    ensures AllVisible(a + b) <==> AllVisible(a) && AllVisible(b)
  {
    hide IsTrimmed;
    if AllVisible(a + b) {
      forall i | 0 <= i < |a| ensures a[i] != "" && IsTrimmed(a[i]) {
        assert (a + b)[i] == a[i];
      }
      forall i | 0 <= i < |b| ensures b[i] != "" && IsTrimmed(b[i]) {
        assert (a + b)[|a| + i] == b[i];
      }
    }
  }

  lemma {:induction false} SentencesAreVisible(pieces: seq<string>)
    ensures AllVisible(Sentences(pieces)) && VisibleIn(Sentences(pieces)) == VisibleIn(pieces)
  {
    hide Trim, Visible;
    if pieces != [] {
      var last := |pieces| - 1;
      SentencesAreVisible(pieces[..last]);
      var lo, hi := TrimIsSlice(pieces[last]);
      var sent := Trim(pieces[last]);
      TrimKeepsVisible(pieces[last]);
      VisibleInSplits(Sentences(pieces[..last]), KeepWord(sent));
      VisiblePrepend(sent, []);
      PartsVisible(Sentences(pieces[..last]), KeepWord(sent));
    }
  }

  ghost predicate NoneOversized(sents: seq<string>, limit: nat) {
    forall i :: 0 <= i < |sents| ==> |Words(sents[i])| <= limit
  }

  lemma BlockIsOneChunk(b: Block, limit: nat)
    requires b.Valid(limit) && NoneOversized(b.Sents(), limit)
    ensures b.Whole? && b.Chunks(limit) == [Join(b.sents)]
  {
    hide Words;
    assert |Words(b.Sents()[0])| <= limit || b.Whole?;
  }

  lemma NoneOversizedParts(a: seq<string>, b: seq<string>, limit: nat)
    requires NoneOversized(a + b, limit)
    ensures NoneOversized(a, limit) && NoneOversized(b, limit)
  {
    forall i | 0 <= i < |a| ensures |Words(a[i])| <= limit {
      assert (a + b)[i] == a[i];
    }
    forall i | 0 <= i < |b| ensures |Words(b[i])| <= limit {
      assert (a + b)[|a| + i] == b[i];
    }
  }

  /** If no sentence is over the limit by itself, every block is one chunk. */
  lemma {:induction false} OneChunkEach(blocks: seq<Block>, sents: seq<string>, limit: nat)
    requires sents == SentsOf(blocks) && forall i :: 0 <= i < |blocks| ==> blocks[i].Valid(limit)
    ensures NoneOversized(sents, limit) ==>
      |ChunksOf(blocks, limit)| == |blocks|
      && forall i :: 0 <= i < |blocks| ==> blocks[i].Whole? && ChunksOf(blocks, limit)[i] == Join(blocks[i].sents)
  {
    hide NoneOversized, Block.Valid, Block.Chunks, Block.Sents, Join;
    if blocks != [] && NoneOversized(sents, limit) {
      var front, b := blocks[..|blocks| - 1], blocks[|blocks| - 1];
      NoneOversizedParts(SentsOf(front), b.Sents(), limit);
      OneChunkEach(front, SentsOf(front), limit);
      BlockIsOneChunk(b, limit);
      forall i | 0 <= i < |blocks| - 1
        ensures blocks[i].Whole? && ChunksOf(blocks, limit)[i] == Join(blocks[i].sents)
      {
        assert front[i] == blocks[i];
      }
    }
  }

  /** Then no two neighbouring chunks would have fitted into one. */
  lemma CutIsPacked(blocks: seq<Block>, sents: seq<string>, limit: nat)
    requires IsCut(blocks, sents, limit) && NoneOversized(sents, limit)
    ensures Packed(ChunksOf(blocks, limit), limit)
  {
    OneChunkEach(blocks, sents, limit);
    hide WordsFrom, WordsIn;
    var chunks := ChunksOf(blocks, limit);
    forall i | 0 <= i < |chunks| - 1 ensures |Words(chunks[i])| + |Words(chunks[i + 1])| > limit {
      var next := blocks[i + 1].sents;
      assert IsFull(blocks[i], blocks[i + 1], limit) && blocks[i + 1].Valid(limit);
      WordsOfJoined(blocks[i].sents);
      WordsOfJoined(next);
      WordsInOne(next[0]);
      WordsInSplits([next[0]], next[1..]);
      assert [next[0]] + next[1..] == next;
    }
  }

  // ---- a greedy cut leaves no choice ----

  lemma {:induction false} SentsOfFront(blocks: seq<Block>)
    requires blocks != []
    ensures SentsOf(blocks) == blocks[0].Sents() + SentsOf(blocks[1..])
  {
    hide Block.Sents;
    var last := |blocks| - 1;
    if last > 0 {
      SentsOfFront(blocks[..last]);
      assert blocks[..last][1..] == blocks[1..][..last - 1];
    } else {
      assert blocks[1..] == [] && blocks[..0] == [];
    }
  }

  /** Behind the first block of a cut comes a cut of the other sentences. */
  lemma RestIsCut(blocks: seq<Block>, sents: seq<string>, limit: nat)
    requires IsCut(blocks, sents, limit) && blocks != []
    ensures var n := |blocks[0].Sents()|;
      0 < n <= |sents| && sents[..n] == blocks[0].Sents() && IsCut(blocks[1..], sents[n..], limit)
  {
    SentsOfFront(blocks);
    var first, rest := blocks[0], blocks[1..];
    assert first.Valid(limit);
    forall i | 0 <= i < |rest| ensures rest[i].Valid(limit) {
      assert blocks[i + 1].Valid(limit);
    }
    forall i | 0 <= i < |rest| - 1 ensures IsFull(rest[i], rest[i + 1], limit) {
      assert IsFull(blocks[i + 1], blocks[i + 2], limit);
    }
  }

  lemma WordsOfLonger(sents: seq<string>, m: nat, n: nat)
    requires m < n <= |sents|
    ensures |WordsIn(sents[..n])| >= |WordsIn(sents[..m])| + |Words(sents[m])|
  {
    hide Words, WordsIn;
    WordsInOne(sents[m]);
    WordsInSplits(sents[..m], [sents[m]]);
    WordsInSplits(sents[..m] + [sents[m]], sents[m + 1..n]);
    assert sents[..n] == sents[..m] + [sents[m]] + sents[m + 1..n];
  }

  /** The first sentence alone decides the kind of the first block. */
  lemma KindOfFirst(blocks: seq<Block>, sents: seq<string>, limit: nat)
    requires IsCut(blocks, sents, limit) && blocks != []
    ensures sents != [] && (blocks[0].Oversized? <==> |Words(sents[0])| > limit)
  {
    RestIsCut(blocks, sents, limit);
    hide Words, WordsIn;
    assert blocks[0].Valid(limit) && blocks[0].Sents()[0] == sents[0];
    if blocks[0].Whole? {
      WordsOfLonger(sents, 0, |blocks[0].sents|);
    }
  }

  /** No cut starts with more sentences in a row than another. */
  lemma FirstIsLongest(a: seq<Block>, b: seq<Block>, sents: seq<string>, limit: nat)
    requires IsCut(a, sents, limit) && IsCut(b, sents, limit) && a != [] && b != []
    requires a[0].Whole? && b[0].Whole?
    ensures |b[0].sents| <= |a[0].sents|
  {
    var m, n := |a[0].sents|, |b[0].sents|;
    RestIsCut(a, sents, limit);
    RestIsCut(b, sents, limit);
    if m < n {
      RestIsCut(a[1..], sents[m..], limit);
      hide Words, WordsIn;
      assert IsFull(a[0], a[1], limit) && b[0].Valid(limit);
      assert a[1].Sents()[0] == sents[m..][0] == sents[m];
      WordsOfLonger(sents, m, n);
    }
  }

  /** The sentences and the limit determine the blocks, and so the chunks. */
  lemma {:induction false} CutIsUnique(a: seq<Block>, b: seq<Block>, sents: seq<string>, limit: nat)
    requires IsCut(a, sents, limit) && IsCut(b, sents, limit)
    ensures a == b
    decreases |sents|
  {
    if a != [] && b != [] {
      KindOfFirst(a, sents, limit);
      KindOfFirst(b, sents, limit);
      if a[0].Whole? {
        FirstIsLongest(a, b, sents, limit);
        FirstIsLongest(b, a, sents, limit);
      }
      RestIsCut(a, sents, limit);
      RestIsCut(b, sents, limit);
      assert |a[0].Sents()| == |b[0].Sents()|;
      assert a[0] == b[0] by {
        assert a[0].Sents()[0] == b[0].Sents()[0];
      }
      CutIsUnique(a[1..], b[1..], sents[|a[0].Sents()|..], limit);
      assert a == [a[0]] + a[1..] && b == [b[0]] + b[1..];
    } else {
      assert SentsOf([]) == [];
      if a != [] {
        KindOfFirst(a, sents, limit);
      }
      if b != [] {
        KindOfFirst(b, sents, limit);
      }
    }
  }

  // ---- the operation ----

  function WithPending(blocks: seq<Block>, pending: seq<string>): seq<Block> {
    if pending == [] then blocks else blocks + [Whole(pending)]
  }

  /** The loop's variables: finished chunks, and the chunk being filled with its word count. */
  ghost predicate IsFilling(chunks: seq<string>, current: string, tokens: nat, blocks: seq<Block>,
                            pending: seq<string>, sents: seq<string>, limit: nat)
  {
    && chunks == ChunksOf(blocks, limit)
    && current == Join(pending) && (current == "" <==> pending == [])
    && tokens == |WordsIn(pending)|
    && IsCut(WithPending(blocks, pending), sents, limit)
    && (pending == [] && blocks != [] ==> blocks[|blocks| - 1].Oversized?)
  }

  lemma JoinAppend(parts: seq<string>, x: string)
    requires parts != []
    ensures Join(parts + [x]) == Join(parts) + " " + x
  {
    if |parts| == 1 {
      assert (parts + [x])[1..] == [x];
    } else {
      assert (parts + [x])[1..] == parts[1..] + [x];
      JoinAppend(parts[1..], x);
    }
  }

  /** The finished chunks stand, and a chunk that starts with this sentence is next. */
  ghost predicate IsReady(chunks: seq<string>, blocks: seq<Block>, sents: seq<string>, sent: string, limit: nat) {
    && chunks == ChunksOf(blocks, limit) && IsCut(blocks, sents, limit)
    && (blocks != [] ==> IsFull(blocks[|blocks| - 1], Oversized(sent), limit))
  }

  lemma NothingFilled(limit: nat)
    ensures IsFilling([], "", 0, [], [], [], limit)
  {
  }

  lemma NothingPending(chunks: seq<string>, current: string, tokens: nat, blocks: seq<Block>, pending: seq<string>,
                       sents: seq<string>, sent: string, limit: nat)
    ensures IsFilling(chunks, current, tokens, blocks, pending, sents, limit) ==>
      (current == "" <==> pending == [])
      && (current == "" ==> tokens == 0 && IsReady(chunks, blocks, sents, sent, limit))
  {
    hide IsCut, ChunksOf, Join, Words;
  }

  /** A sentence that would go over the limit finishes the chunk being filled. */
  lemma Flushed(chunks: seq<string>, current: string, tokens: nat, blocks: seq<Block>, pending: seq<string>,
                sents: seq<string>, sent: string, limit: nat)
    requires IsFilling(chunks, current, tokens, blocks, pending, sents, limit) && pending != []
    requires tokens + |Words(sent)| > limit
    ensures IsReady(chunks + [current], blocks + [Whole(pending)], sents, sent, limit)
  {
    hide IsCut, Words;
    AppendBlock(blocks, Whole(pending), limit);
  }

  lemma CutByItself(chunks: seq<string>, blocks: seq<Block>, sents: seq<string>, sent: string, limit: nat)
    requires IsReady(chunks, blocks, sents, sent, limit) && |Words(sent)| > limit
    ensures IsFilling(chunks + Runs(Words(sent), MaxWords(limit)), "", 0, blocks + [Oversized(sent)], [],
                      sents + [sent], limit)
  {
    hide IsCut, Words, Runs;
    AppendBlock(blocks, Oversized(sent), limit);
    CutGrows(blocks, sents, Oversized(sent), limit);
    assert WordsIn([]) == [];
  }

  lemma Started(chunks: seq<string>, blocks: seq<Block>, sents: seq<string>, sent: string, limit: nat)
    requires IsReady(chunks, blocks, sents, sent, limit) && |Words(sent)| <= limit && sent != ""
    ensures IsFilling(chunks, sent, |Words(sent)|, blocks, [sent], sents + [sent], limit)
  {
    WordsInOne(sent);
    hide IsCut, Words;
    CutGrows(blocks, sents, Whole([sent]), limit);
  }

  lemma Filled(chunks: seq<string>, current: string, tokens: nat, blocks: seq<Block>, pending: seq<string>,
               sents: seq<string>, sent: string, limit: nat)
    requires IsFilling(chunks, current, tokens, blocks, pending, sents, limit) && pending != []
    requires tokens + |Words(sent)| <= limit
    ensures IsFilling(chunks, current + " " + sent, tokens + |Words(sent)|, blocks, pending + [sent],
                      sents + [sent], limit)
  {
    JoinAppend(pending, sent);
    WordsInSplits(pending, [sent]);
    WordsInOne(sent);
    hide IsCut, Words, WordsIn, Join;
    LastTakes(blocks, sents, pending, sent, limit);
  }

  lemma Finished(chunks: seq<string>, current: string, tokens: nat, blocks: seq<Block>, pending: seq<string>,
                 sents: seq<string>, limit: nat)
    requires IsFilling(chunks, current, tokens, blocks, pending, sents, limit)
    ensures var all := WithPending(blocks, pending);
      IsCut(all, sents, limit) && ChunksOf(all, limit) == if current == "" then chunks else chunks + [current]
  {
    hide IsCut;
    AppendBlock(blocks, Whole(pending), limit);
  }

  lemma TrimmedHasWords(piece: string)
    requires Trim(piece) != ""
    ensures |Words(Trim(piece))| >= 1
  {
    var lo, hi := TrimIsSlice(piece);
    VisibleMeansWords(Trim(piece));
  }

  lemma SentencesStep(pieces: seq<string>, k: nat)
    requires k < |pieces|
    ensures var sent := Trim(pieces[k]);
      Sentences(pieces[..k + 1]) == Sentences(pieces[..k]) + (if sent == "" then [] else [sent])
  {
    assert pieces[..k + 1][..k] == pieces[..k];
  }

  /**
   * What a cut means. The words of the chunks, in order, are those of the sentences, and what is visible in the text
   * comes through; no chunk is blank or over the limit (of at least one word); and unless a sentence alone is over
   * the limit, no two neighbouring chunks would have fitted into one.
   */
  lemma ChunksOfCut(text: string, blocks: seq<Block>, limit: nat)
    requires IsCut(blocks, Sentences(Pieces("", text)), limit)
    ensures var chunks, sents := ChunksOf(blocks, limit), Sentences(Pieces("", text));
      && WordsIn(chunks) == WordsIn(sents)
      && VisibleIn(chunks) == Visible(text)
      && AllFit(chunks, limit)
      && (NoneOversized(sents, limit) ==> Packed(chunks, limit))
  {
    var sents := Sentences(Pieces("", text));
    ChunksHoldWords(blocks, limit);
    SentencesAreVisible(Pieces("", text));
    WordsInHoldVisible(ChunksOf(blocks, limit));
    WordsInHoldVisible(sents);
    PiecesHoldVisible("", text);
    ChunksFit(blocks, limit);
    if NoneOversized(sents, limit) {
      CutIsPacked(blocks, sents, limit);
    }
  }

  /**
   * The chunks of a text: its sentences cut greedily into blocks, from which the words come through in order and
   * the chunks get their size (`ChunksOfCut`).
   */
  method Chunk(text: Option<string>, limitOption: Option<nat>)
    returns (r: Option<seq<string>>, ghost blocks: seq<Block>)
    ensures r.None? <==> text.None?
    ensures r.Some? ==>
      var limit := if limitOption.Some? then limitOption.value else 200;
      var sents := Sentences(Pieces("", text.value));
      && r.value == ChunksOf(blocks, limit) && IsCut(blocks, sents, limit)
      && WordsIn(r.value) == WordsIn(sents) && VisibleIn(r.value) == Visible(text.value)
      && AllFit(r.value, limit)
      && (NoneOversized(sents, limit) ==> Packed(r.value, limit))
  {
    hide Words, Trim, IsCut, IsReady, IsFilling, Runs, Join, ChunksOf, Pieces, AllFit, Packed, NoneOversized;
    blocks := [];
    if text.None? {
      r := None;
      return;
    }
    var limit := if limitOption.Some? then limitOption.value else 200;
    var pieces := CutPieces(text.value);
    var chunks, current := [], "";
    var currentTokens: nat := 0;
    ghost var pending := [];
    NothingFilled(limit);
    for k := 0 to |pieces|
      invariant IsFilling(chunks, current, currentTokens, blocks, pending, Sentences(pieces[..k]), limit)
    {
      ghost var sents := Sentences(pieces[..k]);
      var sent := Trim(pieces[k]);
      SentencesStep(pieces, k);
      if sent == "" {
        assert sents + [] == sents;
      } else {
        TrimmedHasWords(pieces[k]);
        var words := Words(sent);
        var tokens := |words|;
        NothingPending(chunks, current, currentTokens, blocks, pending, sents, sent, limit);
        if currentTokens + tokens > limit && current != "" {
          Flushed(chunks, current, currentTokens, blocks, pending, sents, sent, limit);
          chunks, current, currentTokens := chunks + [current], "", 0;
          blocks, pending := blocks + [Whole(pending)], [];
        }
        if tokens > limit {
          CutByItself(chunks, blocks, sents, sent, limit);
          var runs := HardSplit(words, MaxWords(limit));
          chunks := chunks + runs;
          currentTokens := 0;
          blocks := blocks + [Oversized(sent)];
        } else {
          if current != "" {
            Filled(chunks, current, currentTokens, blocks, pending, sents, sent, limit);
            current := current + " ";
          } else {
            Started(chunks, blocks, sents, sent, limit);
            assert current + sent == sent && pending + [sent] == [sent];
          }
          current := current + sent;
          currentTokens := currentTokens + tokens;
          pending := pending + [sent];
        }
      }
    }
    assert pieces[..|pieces|] == pieces;
    Finished(chunks, current, currentTokens, blocks, pending, Sentences(pieces), limit);
    NothingPending(chunks, current, currentTokens, blocks, pending, Sentences(pieces), "", limit);
    if current != "" {
      chunks := chunks + [current];
      blocks := blocks + [Whole(pending)];
    }
    ChunksOfCut(text.value, blocks, limit);
    r := Some(chunks);
  }
}
