/** Message compression: keep what must be kept, then what ranks best and still fits. */
module Compressor {
  import opened Options
  import opened Sequences
  import opened Sorting
  import opened Text
  import opened Sentences

  datatype CompressionResult = CompressionResult(
    compressed: string, originalTokens: nat, compressedTokens: nat,
    preservedSpans: nat, sentencesKept: nat, sentencesTotal: nat)

  datatype CompressionError = NoMessage | BadBudgetOrMode

  /** A sentence with its position. */
  type Entry = (nat, string)

  /** A token for every four characters begun. */
  function EstimateTokens(text: string): (r: nat)
    ensures 4 * r - 4 < |text| <= 4 * r
  {
    (|text| + 3) / 4
  }

  predicate IsMode(mode: string) {
    mode == "keyword" || mode == "sentence" || mode == "hybrid"
  }

  // ---- what a compression is ----

  /** The estimated cost of the sentences at the positions in s. */
  function Cost(l: seq<string>, s: set<nat>): nat {
    if l == [] then 0
    else Cost(l[..|l| - 1], s) + (if |l| - 1 in s then EstimateTokens(l[|l| - 1]) else 0)
  }

  ghost function Preserved(l: seq<string>, preserved: string -> bool): set<nat> {
    set i: nat | i < |l| && preserved(l[i]) :: i
  }

  /**
   * The kept positions s are a greedy choice for the budget: all preserved sentences, a cost within the budget
   * unless the preserved ones alone exceed it, and no sentence left out that would still fit.
   */
  ghost predicate IsGreedy(l: seq<string>, budget: nat, preserved: string -> bool, s: set<nat>) {
    && (forall i :: i in s ==> i < |l|)
    && Preserved(l, preserved) <= s
    && (s == Preserved(l, preserved) || Cost(l, s) <= budget)
    && (forall i: nat :: i < |l| && i !in s ==> Cost(l, s) + EstimateTokens(l[i]) > budget)
  }

  /** Sentence j has its turn before sentence i: a higher score, or the same score and an earlier place. */
  ghost predicate RanksBefore(l: seq<string>, mode: string, score: (string, nat, string) -> real, j: nat, i: nat)
    requires j < |l| && i < |l|
  {
    var a, b := score(l[j], j, mode), score(l[i], i, mode);
    a > b || (a == b && j < i)
  }

  /** The sentences of s that are in place when sentence i has its turn. */
  ghost function InPlaceBefore(l: seq<string>, preserved: string -> bool, mode: string,
                               score: (string, nat, string) -> real, s: set<nat>, i: nat): set<nat>
    requires i < |l|
  {
    set j: nat | j in s && j < |l| && (preserved(l[j]) || RanksBefore(l, mode, score, j, i))
  }

  /** A sentence that need not be kept is in s exactly if it fits behind those that are in place at its turn. */
  ghost predicate IsChosenByRank(l: seq<string>, budget: nat, preserved: string -> bool, mode: string,
                                 score: (string, nat, string) -> real, s: set<nat>)
  {
    forall i: nat :: i < |l| && !preserved(l[i]) ==>
      (i in s <==> Cost(l, InPlaceBefore(l, preserved, mode, score, s, i)) + EstimateTokens(l[i]) <= budget)
  }

  // ---- the operation ----

  /** The kept entries are exactly the sentences at the positions in s. */
  ghost predicate Holds(l: seq<string>, kept: seq<Entry>, s: set<nat>) {
    && Distinct(kept)
    && (forall e :: e in kept ==> e.0 < |l| && e.1 == l[e.0])
    && (forall i: nat :: i < |l| ==> (i in s <==> (i, l[i]) in kept))
  }

  lemma {:induction false} CostGrows(l: seq<string>, s: set<nat>, i: nat)
    requires i < |l| && i !in s
    ensures Cost(l, s + {i}) == Cost(l, s) + EstimateTokens(l[i])
  {
    var last := |l| - 1;
    if i == last {
      CostAgrees(l[..last], s, s + {i});
    } else {
      CostGrows(l[..last], s, i);
    }
  }

  lemma {:induction false} CostAgrees(l: seq<string>, s: set<nat>, t: set<nat>)
    requires forall i: nat :: i < |l| ==> (i in s <==> i in t)
    ensures Cost(l, s) == Cost(l, t)
  {
    if l != [] {
      CostAgrees(l[..|l| - 1], s, t);
    }
  }

  lemma KeepOne(l: seq<string>, kept: seq<Entry>, s: set<nat>, i: nat)
    requires Holds(l, kept, s) && i < |l| && i !in s
    ensures Holds(l, kept + [(i, l[i])], s + {i})
    ensures Cost(l, s + {i}) == Cost(l, s) + EstimateTokens(l[i])
  {
    CostGrows(l, s, i);
    AppendFresh(kept, (i, l[i]));
  }

  /** The sentences that need not be kept, with their positions. */
  function Candidates(l: seq<string>, preserved: string -> bool): (r: seq<Entry>)
    ensures forall e :: e in r <==> e.0 < |l| && e.1 == l[e.0] && !preserved(e.1)
    ensures InOrder(r)
  {
    if l == [] then []
    else
      var last := |l| - 1;
      var rest := Candidates(l[..last], preserved);
      assert forall e: Entry :: e in rest ==> e.0 < last;
      if preserved(l[last]) then rest else rest + [(last, l[last])]
  }

  function Texts(kept: seq<Entry>): seq<string> {
    seq(|kept|, i requires 0 <= i < |kept| => kept[i].1)
  }

  ghost predicate InOrder(kept: seq<Entry>) {
    forall i, j :: 0 <= i < j < |kept| ==> kept[i].0 < kept[j].0
  }

  /** In position order the kept entries read as the picked sentences. */
  lemma {:induction false} OrderedTexts(l: seq<string>, kept: seq<Entry>, s: set<nat>)
    requires Holds(l, kept, s) && InOrder(kept)
    ensures Texts(kept) == Pick(l, s)
    decreases |l|
  {
    if l == [] {
      NothingHeld(kept, s);
    } else {
      hide Holds;
      var last := |l| - 1;
      if last in s {
        LastHeld(l, kept, s);
        DropLast(l, kept, s);
        OrderedTexts(l[..last], kept[..|kept| - 1], s);
        assert Texts(kept) == Texts(kept[..|kept| - 1]) + [l[last]];
      } else {
        SkipLast(l, kept, s);
        OrderedTexts(l[..last], kept, s);
      }
    }
  }

  lemma LastHeld(l: seq<string>, kept: seq<Entry>, s: set<nat>)
    requires l != [] && Holds(l, kept, s) && InOrder(kept) && |l| - 1 in s
    ensures kept != [] && kept[|kept| - 1] == (|l| - 1, l[|l| - 1])
  {
    var k :| 0 <= k < |kept| && kept[k] == (|l| - 1, l[|l| - 1]);
    assert kept[|kept| - 1] in kept;
  }

  lemma SkipLast(l: seq<string>, kept: seq<Entry>, s: set<nat>)
    requires l != [] && Holds(l, kept, s) && |l| - 1 !in s
    ensures Holds(l[..|l| - 1], kept, s)
  {
    var last := |l| - 1;
    forall e | e in kept ensures e.0 < last {
      assert e.0 < |l| && e.1 == l[e.0];
    }
  }

  lemma NothingHeld(kept: seq<Entry>, s: set<nat>)
    requires Holds([], kept, s)
    ensures kept == []
  {
    DistinctCardinality(kept);
    assert Elements(kept) == {};
  }

  lemma DropLast(l: seq<string>, kept: seq<Entry>, s: set<nat>)
    requires l != [] && Holds(l, kept, s) && kept != [] && kept[|kept| - 1] == (|l| - 1, l[|l| - 1])
    ensures Holds(l[..|l| - 1], kept[..|kept| - 1], s)
  {
    var last, k := |l| - 1, |kept| - 1;
    forall i: nat | i < last ensures i in s <==> (i, l[..last][i]) in kept[..k] {
      assert (i, l[i]) in kept ==> (i, l[i]) in kept[..k];
    }
  }

  method KeepPreserved(l: seq<string>, preserved: string -> bool)
    returns (kept: seq<Entry>, used: nat, ghost s: set<nat>)
    ensures Holds(l, kept, s) && used == Cost(l, s) && s == Preserved(l, preserved)
  {
    kept, used, s := [], 0, {};
    CostOfNothing(l);
    for index: nat := 0 to |l|
      invariant Holds(l, kept, s) && used == Cost(l, s)
      invariant forall i: nat :: i in s <==> i < index && i < |l| && preserved(l[i])
    {
      var sentence := l[index];
      if preserved(sentence) {
        KeepOne(l, kept, s, index);
        used := used + EstimateTokens(sentence);
        kept := kept + [(index, sentence)];
        s := s + {index};
      }
    }
  }

  /** What is in place when ranked entry k has its turn: s0, and the earlier ranked entries that are in s. */
  ghost function InPlaceAt(s0: set<nat>, s: set<nat>, ranked: seq<Entry>, k: nat): set<nat>
    requires k <= |ranked|
  {
    s0 + (set j: nat | j < k && ranked[j].0 in s :: ranked[j].0)
  }

  /** A position that is not among the first m ranked ones does not change what is in place at turn m. */
  lemma InPlaceStays(s0: set<nat>, s: set<nat>, ranked: seq<Entry>, m: nat, index: nat)
    requires m <= |ranked| && forall j: nat :: j < m ==> ranked[j].0 != index
    ensures InPlaceAt(s0, s + {index}, ranked, m) == InPlaceAt(s0, s, ranked, m)
  {
    assert forall j: nat :: j < m ==> (ranked[j].0 in s + {index} <==> ranked[j].0 in s);
  }

  lemma InPlaceNext(s0: set<nat>, s: set<nat>, ranked: seq<Entry>, k: nat)
    requires k < |ranked|
    ensures InPlaceAt(s0, s, ranked, k + 1)
         == InPlaceAt(s0, s, ranked, k) + (if ranked[k].0 in s then {ranked[k].0} else {})
  {
  }

  /** Every ranked entry had its turn: it is in s exactly if it fitted then. */
  ghost predicate TakesTurns(l: seq<string>, budget: nat, s0: set<nat>, s: set<nat>, ranked: seq<Entry>, n: nat)
    requires n <= |ranked|
  {
    forall k: nat :: k < n ==>
      (ranked[k].0 in s <==> Cost(l, InPlaceAt(s0, s, ranked, k)) + EstimateTokens(ranked[k].1) <= budget)
  }

  lemma NotInPlace(s0: set<nat>, s: set<nat>, ranked: seq<Entry>, k: nat)
    requires k < |ranked| && ranked[k].0 !in s0 && forall j: nat :: j < k ==> ranked[j].0 != ranked[k].0
    ensures ranked[k].0 !in InPlaceAt(s0, s, ranked, k)
  {
  }

  /** A position that is not among the first k ranked ones changes nothing for their turns. */
  lemma EarlierTurnsStay(l: seq<string>, budget: nat, s0: set<nat>, s: set<nat>, ranked: seq<Entry>, k: nat, index: nat)
    requires k <= |ranked| && TakesTurns(l, budget, s0, s, ranked, k)
    requires forall j: nat :: j < k ==> ranked[j].0 != index
    ensures TakesTurns(l, budget, s0, s + {index}, ranked, k)
  {
    hide Cost, InPlaceAt, EstimateTokens;
    var s' := s + {index};
    forall m: nat | m < k
      ensures ranked[m].0 in s' <==> Cost(l, InPlaceAt(s0, s', ranked, m)) + EstimateTokens(ranked[m].1) <= budget
    {
      InPlaceStays(s0, s, ranked, m, index);
      assert ranked[m].0 in s' <==> ranked[m].0 in s;
    }
  }

  lemma OneMoreTurn(l: seq<string>, budget: nat, s0: set<nat>, s: set<nat>, ranked: seq<Entry>, k: nat)
    requires k < |ranked| && TakesTurns(l, budget, s0, s, ranked, k)
    requires ranked[k].0 in s <==> Cost(l, InPlaceAt(s0, s, ranked, k)) + EstimateTokens(ranked[k].1) <= budget
    ensures TakesTurns(l, budget, s0, s, ranked, k + 1)
  {
    hide Cost, InPlaceAt, EstimateTokens;
  }

  lemma TurnTaken(l: seq<string>, budget: nat, s0: set<nat>, s: set<nat>, ranked: seq<Entry>, k: nat)
    requires k < |ranked| && TakesTurns(l, budget, s0, s, ranked, k)
    requires s == InPlaceAt(s0, s, ranked, k)
    requires forall j: nat :: j < k ==> ranked[j].0 != ranked[k].0
    requires ranked[k].0 !in s0
    ensures ranked[k].0 !in s
    ensures var s' := if Cost(l, s) + EstimateTokens(ranked[k].1) <= budget then s + {ranked[k].0} else s;
      TakesTurns(l, budget, s0, s', ranked, k + 1) && s' == InPlaceAt(s0, s', ranked, k + 1)
  {
    hide Cost, InPlaceAt, EstimateTokens, TakesTurns;
    NotInPlace(s0, s, ranked, k);
    if Cost(l, s) + EstimateTokens(ranked[k].1) <= budget {
      var s' := s + {ranked[k].0};
      EarlierTurnsStay(l, budget, s0, s, ranked, k, ranked[k].0);
      InPlaceStays(s0, s, ranked, k, ranked[k].0);
      OneMoreTurn(l, budget, s0, s', ranked, k);
      InPlaceNext(s0, s', ranked, k);
    } else {
      OneMoreTurn(l, budget, s0, s, ranked, k);
      InPlaceNext(s0, s, ranked, k);
    }
  }

  /** Takes the ranked entries one by one as long as each fits. */
  method FillBudget(l: seq<string>, ranked: seq<Entry>, budget: nat, kept0: seq<Entry>, used0: nat, ghost s0: set<nat>)
    returns (kept: seq<Entry>, used: nat, ghost s: set<nat>)
    requires Holds(l, kept0, s0) && used0 == Cost(l, s0)
    requires forall e :: e in ranked ==> e.0 < |l| && e.1 == l[e.0] && e.0 !in s0
    requires Distinct(ranked)
    ensures Holds(l, kept, s) && used == Cost(l, s) && s0 <= s
    ensures s == s0 || used <= budget
    ensures forall i :: i in s ==> i in s0 || i < |l|
    ensures forall e :: e in ranked && e.0 !in s ==> used + EstimateTokens(e.1) > budget
    ensures TakesTurns(l, budget, s0, s, ranked, |ranked|) && s == InPlaceAt(s0, s, ranked, |ranked|)
  {
    hide Holds, Distinct, TakesTurns, InPlaceAt;
    kept, used, s := kept0, used0, s0;
    NoTurnYet(l, budget, s0, ranked);
    for k := 0 to |ranked|
      invariant Holds(l, kept, s) && used == Cost(l, s) && s0 <= s
      invariant s == s0 || used <= budget
      invariant forall i :: i in s ==> i in s0 || (i < |l| && (i, l[i]) in ranked[..k])
      invariant forall e :: e in ranked[..k] && e.0 !in s ==> used + EstimateTokens(e.1) > budget
      invariant TakesTurns(l, budget, s0, s, ranked, k) && s == InPlaceAt(s0, s, ranked, k)
    {
      var (index, sentence) := ranked[k];
      var cost := EstimateTokens(sentence);
      assert ranked[..k + 1] == ranked[..k] + [ranked[k]];
      OtherPositions(l, ranked, k);
      TurnTaken(l, budget, s0, s, ranked, k);
      if used + cost <= budget {
        KeepOne(l, kept, s, index);
        used := used + cost;
        kept := kept + [(index, sentence)];
        s := s + {index};
      }
    }
    assert ranked[..|ranked|] == ranked;
  }

  lemma NoTurnYet(l: seq<string>, budget: nat, s0: set<nat>, ranked: seq<Entry>)
    ensures TakesTurns(l, budget, s0, s0, ranked, 0) && s0 == InPlaceAt(s0, s0, ranked, 0)
  {
  }

  lemma OtherPositions(l: seq<string>, ranked: seq<Entry>, k: nat)
    requires Distinct(ranked) && k < |ranked|
    requires forall e :: e in ranked ==> e.0 < |l| && e.1 == l[e.0]
    ensures forall j: nat :: j < k ==> ranked[j].0 != ranked[k].0
  {
    forall j: nat | j < k ensures ranked[j].0 != ranked[k].0 {
      assert ranked[j] in ranked && ranked[k] in ranked;
    }
  }

  /** The candidates in the order of their turns. */
  ghost predicate IsRanking(l: seq<string>, preserved: string -> bool, mode: string,
                            score: (string, nat, string) -> real, ranked: seq<Entry>)
  {
    && (forall e :: e in ranked <==> e.0 < |l| && e.1 == l[e.0] && !preserved(e.1))
    && (forall i, j :: 0 <= i < j < |ranked| ==>
          ranked[i].0 < |l| && ranked[j].0 < |l| && RanksBefore(l, mode, score, ranked[i].0, ranked[j].0))
  }

  method Rank(l: seq<string>, preserved: string -> bool, mode: string, score: (string, nat, string) -> real)
    returns (ranked: seq<Entry>)
    ensures Distinct(ranked) && IsRanking(l, preserved, mode, score, ranked)
  {
    var better := (a: Entry, b: Entry) => score(a.1, a.0, mode) >= score(b.1, b.0, mode);
    var candidates := Candidates(l, preserved);
    SortIsStable(candidates, better, (e: Entry) => e.0);
    ranked := SortBy(candidates, better);
    SameMembers(ranked, candidates);
    forall i, j | 0 <= i < j < |ranked|
      ensures ranked[i].0 < |l| && ranked[j].0 < |l| && RanksBefore(l, mode, score, ranked[i].0, ranked[j].0)
    {
      MemberAt(ranked, candidates, i);
      MemberAt(ranked, candidates, j);
      assert better(ranked[i], ranked[j]);
    }
  }

  /** Turn k of a ranking is the turn of its sentence. */
  lemma TurnOfSentence(l: seq<string>, preserved: string -> bool, mode: string, score: (string, nat, string) -> real,
                       ranked: seq<Entry>, s: set<nat>, k: nat)
    requires IsRanking(l, preserved, mode, score, ranked) && k < |ranked|
    requires Preserved(l, preserved) <= s && forall i :: i in s ==> i < |l|
    ensures ranked[k].0 < |l| && ranked[k].1 == l[ranked[k].0]
    ensures InPlaceAt(Preserved(l, preserved), s, ranked, k)
         == InPlaceBefore(l, preserved, mode, score, s, ranked[k].0)
  {
    var i := ranked[k].0;
    assert ranked[k] in ranked;
    forall j: nat | j < k ensures ranked[j].0 < |l| && !preserved(l[ranked[j].0]) {
      assert ranked[j] in ranked;
    }
    forall j | j in InPlaceBefore(l, preserved, mode, score, s, i)
      ensures j in InPlaceAt(Preserved(l, preserved), s, ranked, k)
    {
      if !preserved(l[j]) {
        assert (j, l[j]) in ranked;
        var m: nat :| m < |ranked| && ranked[m] == (j, l[j]);
        assert m > k ==> RanksBefore(l, mode, score, i, j);
      }
    }
  }

  lemma TurnsChooseByRank(l: seq<string>, budget: nat, preserved: string -> bool, mode: string,
                          score: (string, nat, string) -> real, ranked: seq<Entry>, s: set<nat>)
    requires IsRanking(l, preserved, mode, score, ranked)
    requires Preserved(l, preserved) <= s && forall i :: i in s ==> i < |l|
    requires TakesTurns(l, budget, Preserved(l, preserved), s, ranked, |ranked|)
    ensures IsChosenByRank(l, budget, preserved, mode, score, s)
  {
    forall i: nat | i < |l| && !preserved(l[i])
      ensures i in s <==> Cost(l, InPlaceBefore(l, preserved, mode, score, s, i)) + EstimateTokens(l[i]) <= budget
    {
      assert (i, l[i]) in ranked;
      var k: nat :| k < |ranked| && ranked[k] == (i, l[i]);
      TurnOfSentence(l, preserved, mode, score, ranked, s, k);
    }
  }

  method InPositionOrder(l: seq<string>, kept: seq<Entry>, ghost s: set<nat>) returns (texts: seq<string>)
    requires Holds(l, kept, s)
    ensures texts == Pick(l, s)
  {
    var byPosition := (a: Entry, b: Entry) => a.0 <= b.0;
    SortOrders(kept, byPosition);
    var ordered := SortBy(kept, byPosition);
    SameMembers(ordered, kept);
    DistinctReordered(ordered, kept);
    assert forall i, j :: 0 <= i < j < |ordered| ==> byPosition(ordered[i], ordered[j]);
    forall i, j | 0 <= i < j < |ordered| ensures ordered[i].0 < ordered[j].0 {
      MemberAt(ordered, kept, i);
      MemberAt(ordered, kept, j);
    }
    OrderedTexts(l, ordered, s);
    texts := Texts(ordered);
  }

  method CompressMessage(message: string, budget: nat, mode: string,
                         preserved: string -> bool, score: (string, nat, string) -> real)
    returns (r: Result<CompressionResult, CompressionError>, ghost s: set<nat>)
    ensures r == Err(NoMessage) <==> message == ""
    ensures r == Err(BadBudgetOrMode) <==>
      message != "" && (budget == 0 || mode !in ["keyword", "sentence", "hybrid"])
    ensures r.Ok? ==> IsReport(message, preserved, s, r.value)
    ensures r.Ok? ==> IsGreedy(Split(message), budget, preserved, s) && r.value == Describe(message, preserved, s)
    ensures r.Ok? ==> IsChosenByRank(Split(message), budget, preserved, mode, score, s)
  {
    hide Holds, Distinct, IsRanking, TakesTurns, InPlaceAt, IsChosenByRank;
    s := {};
    if message == "" {
      return Err(NoMessage), {};
    }
    if budget == 0 || !IsMode(mode) {
      return Err(BadBudgetOrMode), {};
    }
    var sentences := SplitSentences(message);
    var kept, used, must := KeepPreserved(sentences, preserved);
    var ranked := Rank(sentences, preserved, mode, score);
    RankedAreCandidates(sentences, preserved, mode, score, ranked);
    kept, used, s := FillBudget(sentences, ranked, budget, kept, used, must);
    forall i: nat | i < |sentences| && i !in s ensures used + EstimateTokens(sentences[i]) > budget {
      assert (i, sentences[i]) in ranked;
    }
    TurnsChooseByRank(sentences, budget, preserved, mode, score, ranked, s);
    var texts := InPositionOrder(sentences, kept, s);
    var compressed := Join(texts);
    ReportMeans(message, preserved, s);
    r := Ok(CompressionResult(compressed, EstimateTokens(message), EstimateTokens(compressed),
      CountPreserved(sentences, preserved), |texts|, |sentences|));
  }

  lemma RankedAreCandidates(l: seq<string>, preserved: string -> bool, mode: string,
                            score: (string, nat, string) -> real, ranked: seq<Entry>)
    requires IsRanking(l, preserved, mode, score, ranked)
    ensures forall e :: e in ranked <==> e.0 < |l| && e.1 == l[e.0] && !preserved(e.1)
  {
  }

  function CountPreserved(l: seq<string>, preserved: string -> bool): nat {
    if l == [] then 0 else CountPreserved(l[..|l| - 1], preserved) + (if preserved(l[|l| - 1]) then 1 else 0)
  }

  // ---- what follows ----

  /** The result record for the kept positions s. */
  ghost function Describe(message: string, preserved: string -> bool, s: set<nat>): CompressionResult {
    var l := Split(message);
    var compressed := Join(Pick(l, s));
    CompressionResult(compressed, EstimateTokens(message), EstimateTokens(compressed),
      CountPreserved(l, preserved), |Pick(l, s)|, |l|)
  }

  /** What the six reported fields say about the message and the kept positions. */
  ghost predicate IsReport(message: string, preserved: string -> bool, s: set<nat>, r: CompressionResult) {
    var l := Split(message);
    && r.compressed == Join(Pick(l, s))
    && 4 * r.originalTokens - 4 < |message| <= 4 * r.originalTokens
    && 4 * r.compressedTokens - 4 < |r.compressed| <= 4 * r.compressedTokens
    && r.preservedSpans == |Preserved(l, preserved)|
    && r.sentencesKept == |s| && r.sentencesTotal == |l|
  }

  lemma ReportMeans(message: string, preserved: string -> bool, s: set<nat>)
    requires forall i :: i in s ==> i < |Split(message)|
    ensures IsReport(message, preserved, s, Describe(message, preserved, s))
  {
    PickedCount(Split(message), s);
    PreservedCount(Split(message), preserved);
  }

  lemma {:induction false} PickedCount(l: seq<string>, s: set<nat>)
    requires forall i :: i in s ==> i < |l|
    ensures |Pick(l, s)| == |s|
  {
    if l != [] {
      var last := |l| - 1;
      PickAgrees(l[..last], s, s - {last});
      PickedCount(l[..last], s - {last});
    }
  }

  lemma {:induction false} PickAgrees(l: seq<string>, s: set<nat>, t: set<nat>)
    requires forall i: nat :: i < |l| ==> (i in s <==> i in t)
    ensures Pick(l, s) == Pick(l, t)
  {
    if l != [] {
      PickAgrees(l[..|l| - 1], s, t);
    }
  }

  lemma {:induction false} PreservedCount(l: seq<string>, preserved: string -> bool)
    ensures CountPreserved(l, preserved) == |Preserved(l, preserved)|
  {
    if l != [] {
      var last: nat := |l| - 1;
      PreservedCount(l[..last], preserved);
      assert Preserved(l, preserved)
        == Preserved(l[..last], preserved) + (if preserved(l[last]) then {last} else {});
    }
  }

  lemma {:induction false} CostOfNothing(l: seq<string>)
    ensures Cost(l, {}) == 0
  {
    if l != [] {
      CostOfNothing(l[..|l| - 1]);
    }
  }

  ghost function TurnsBefore(l: seq<string>, mode: string, score: (string, nat, string) -> real, i: nat): set<nat>
    requires i < |l|
  {
    set j: nat | j < |l| && RanksBefore(l, mode, score, j, i)
  }

  lemma RanksAreTransitive(l: seq<string>, mode: string, score: (string, nat, string) -> real, j: nat, i: nat)
    requires j < |l| && i < |l| && RanksBefore(l, mode, score, j, i)
    ensures TurnsBefore(l, mode, score, j) <= TurnsBefore(l, mode, score, i)
  {
    forall m: nat | m < |l| && RanksBefore(l, mode, score, m, j) ensures RanksBefore(l, mode, score, m, i) {
    }
  }

  lemma {:induction false} SameTurnSameChoice(l: seq<string>, budget: nat, preserved: string -> bool, mode: string,
                                              score: (string, nat, string) -> real, s: set<nat>, t: set<nat>, i: nat)
    requires Preserved(l, preserved) <= s && Preserved(l, preserved) <= t && i < |l|
    requires IsChosenByRank(l, budget, preserved, mode, score, s)
    requires IsChosenByRank(l, budget, preserved, mode, score, t)
    ensures i in s <==> i in t
    decreases TurnsBefore(l, mode, score, i)
  {
    if preserved(l[i]) {
      assert i in Preserved(l, preserved);
    } else {
      forall j: nat | j < |l| && RanksBefore(l, mode, score, j, i) ensures j in s <==> j in t {
        RanksAreTransitive(l, mode, score, j, i);
        assert j in TurnsBefore(l, mode, score, i) && j !in TurnsBefore(l, mode, score, j);
        SameTurnSameChoice(l, budget, preserved, mode, score, s, t, j);
      }
      forall j: nat | j < |l| && preserved(l[j]) ensures j in s && j in t {
        assert j in Preserved(l, preserved);
      }
      assert InPlaceBefore(l, preserved, mode, score, s, i) == InPlaceBefore(l, preserved, mode, score, t, i);
    }
  }

  /** Scores, budget and preserved sentences leave no choice: at most one selection meets the contract. */
  lemma ChoiceIsUnique(l: seq<string>, budget: nat, preserved: string -> bool, mode: string,
                       score: (string, nat, string) -> real, s: set<nat>, t: set<nat>)
    requires IsGreedy(l, budget, preserved, s) && IsChosenByRank(l, budget, preserved, mode, score, s)
    requires IsGreedy(l, budget, preserved, t) && IsChosenByRank(l, budget, preserved, mode, score, t)
    ensures s == t
  {
    hide IsChosenByRank;
    forall i: nat | i < |l| ensures i in s <==> i in t {
      SameTurnSameChoice(l, budget, preserved, mode, score, s, t, i);
    }
  }

  /** A larger selection costs at least what any one further sentence adds. */
  lemma CostOfLargerSelection(l: seq<string>, s: set<nat>, t: set<nat>, i: nat)
    requires s <= t && i in t && i !in s && i < |l|
    ensures Cost(l, s) + EstimateTokens(l[i]) <= Cost(l, t)
  {
    CostGrows(l, s, i);
    CostIsMonotone(l, s + {i}, t);
  }

  lemma {:induction false} CostIsMonotone(l: seq<string>, s: set<nat>, t: set<nat>)
    requires s <= t
    ensures Cost(l, s) <= Cost(l, t)
  {
    if l != [] {
      CostIsMonotone(l[..|l| - 1], s, t);
    }
  }

  /** Picking everything changes nothing, and costs of a picked list are costs of the selection. */
  lemma {:induction false} PickAll(l: seq<string>, s: set<nat>)
    requires forall i: nat :: i < |l| ==> i in s
    ensures Pick(l, s) == l
  {
    if l != [] {
      PickAll(l[..|l| - 1], s);
    }
  }

  lemma {:induction false} CostOfPicked(l: seq<string>, s: set<nat>, all: set<nat>)
    requires forall i: nat :: i < |Pick(l, s)| ==> i in all
    ensures Cost(Pick(l, s), all) == Cost(l, s)
  {
    if l != [] {
      var last := |l| - 1;
      var front := Pick(l[..last], s);
      CostOfPicked(l[..last], s, all);
      if last in s {
        CostOfAppended(front, l[last], all);
      }
    }
  }

  lemma CostOfAppended(l: seq<string>, x: string, all: set<nat>)
    requires |l| in all
    ensures Cost(l + [x], all) == Cost(l, all) + EstimateTokens(x)
  {
    assert (l + [x])[..|l|] == l;
  }

  /** Every picked sentence comes from a picked position. */
  lemma {:induction false} PickedFrom(l: seq<string>, s: set<nat>, x: string) returns (i: nat)
    requires x in Pick(l, s)
    ensures i < |l| && i in s && l[i] == x
  {
    var last := |l| - 1;
    if last in s && x == l[last] {
      i := last;
    } else {
      i := PickedFrom(l[..last], s, x);
    }
  }

  /**
   * A second compression of a compression's text, with the same budget and the same preserved sentences, keeps
   * every sentence, whatever the scores were and are.
   */
  lemma CompressionIsIdempotent(message: string, budget: nat, preserved: string -> bool, s: set<nat>, t: set<nat>)
    requires IsGreedy(Split(message), budget, preserved, s)
    requires IsGreedy(Split(Describe(message, preserved, s).compressed), budget, preserved, t)
    ensures var once := Describe(message, preserved, s);
      var twice := Describe(once.compressed, preserved, t);
      twice.compressed == once.compressed && twice.compressedTokens == once.compressedTokens
      && twice.sentencesKept == twice.sentencesTotal == once.sentencesKept
  {
    var l := Split(message);
    var k := Pick(l, s);
    SplitUndoesJoinOfSublist(message, s);
    var all := Indices(|k|);
    CostOfPicked(l, s, all);
    forall i: nat | i < |k| ensures i in t {
      if i !in t {
        assert !preserved(k[i]) by { assert preserved(k[i]) ==> i in Preserved(k, preserved); }
        var from := PickedFrom(l, s, k[i]);
        assert from !in Preserved(l, preserved);
        CostOfLargerSelection(k, t, all, i);
      }
    }
    PickAll(k, t);
  }

  /** A compression is refused a second pass exactly when it kept nothing. */
  lemma NothingKeptIffEmpty(message: string, s: set<nat>)
    ensures Join(Pick(Split(message), s)) == "" <==> Pick(Split(message), s) == []
  {
    SplitUndoesJoinOfSublist(message, s);
    SplitGivesSentences(message);
    PickedAreSentences(Split(message), s);
  }

  function Larger(a: nat, b: nat): nat {
    if a >= b then a else b
  }

  /** The counted cost never exceeds the budget, unless the preserved sentences alone do. */
  lemma CountedCost(l: seq<string>, budget: nat, preserved: string -> bool, s: set<nat>)
    requires IsGreedy(l, budget, preserved, s)
    ensures Cost(l, s) <= Larger(budget, Cost(l, Preserved(l, preserved)))
    ensures budget <= Cost(l, Preserved(l, preserved)) && (forall i :: 0 <= i < |l| ==> l[i] != "") ==>
      s == Preserved(l, preserved)
  {
    CostIsMonotone(l, Preserved(l, preserved), s);
    if s != Preserved(l, preserved) && forall i :: 0 <= i < |l| ==> l[i] != "" {
      var i :| i in s && i !in Preserved(l, preserved);
      CostOfLargerSelection(l, Preserved(l, preserved), s, i);
    }
  }

  function TotalLength(l: seq<string>): nat {
    if l == [] then 0 else TotalLength(l[..|l| - 1]) + |l[|l| - 1]|
  }

  lemma {:induction false} JoinLength(l: seq<string>)
    ensures |Join(l)| == TotalLength(l) + (if l == [] then 0 else |l| - 1)
  {
    if |l| > 1 {
      JoinLength(l[1..]);
      TotalLengthFront(l);
    } else if |l| == 1 {
      assert l[..0] == [];
    }
  }

  lemma {:induction false} TotalLengthFront(l: seq<string>)
    requires l != []
    ensures TotalLength(l) == |l[0]| + TotalLength(l[1..])
  {
    if |l| == 1 {
      assert l[..0] == [] && l[1..] == [];
    } else {
      TotalLengthFront(l[..|l| - 1]);
      assert l[1..][..|l| - 2] == l[..|l| - 1][1..];
    }
  }

  lemma {:induction false} PickedLength(l: seq<string>, s: set<nat>)
    ensures TotalLength(Pick(l, s)) <= 4 * Cost(l, s)
  {
    if l != [] {
      var last := |l| - 1;
      var front := Pick(l[..last], s);
      PickedLength(l[..last], s);
      if last in s {
        LengthOfAppended(front, l[last]);
      }
    }
  }

  lemma LengthOfAppended(l: seq<string>, x: string)
    ensures TotalLength(l + [x]) == TotalLength(l) + |x|
  {
    assert (l + [x])[..|l|] == l;
  }

  /** The separators that joining adds cost at most a quarter token each, rounded up. */
  lemma SeparatorsCost(message: string, preserved: string -> bool, s: set<nat>)
    ensures var r := Describe(message, preserved, s);
      r.sentencesKept > 0 ==>
        r.compressedTokens <= Cost(Split(message), s) + (r.sentencesKept - 1 + 3) / 4
  {
    var l := Split(message);
    PickedLength(l, s);
    JoinLength(Pick(l, s));
  }

  /** How many characters of rounding the selection has to spare for separators, one taken by each sentence. */
  function Slack(l: seq<string>, s: set<nat>): int {
    if l == [] then 0
    else Slack(l[..|l| - 1], s) + (if |l| - 1 in s then 4 * EstimateTokens(l[|l| - 1]) - |l[|l| - 1]| - 1 else 0)
  }

  /** The sentences that must be kept, and those whose length leaves no rounding to spare. */
  ghost function Tightest(l: seq<string>, preserved: string -> bool): set<nat> {
    set i: nat | i < |l| && (preserved(l[i]) || |l[i]| % 4 == 0)
  }

  lemma {:induction false} SlackOfPicked(l: seq<string>, s: set<nat>)
    ensures TotalLength(Pick(l, s)) + |Pick(l, s)| + Slack(l, s) == 4 * Cost(l, s)
  {
    if l != [] {
      var last := |l| - 1;
      SlackOfPicked(l[..last], s);
      if last in s {
        LengthOfAppended(Pick(l[..last], s), l[last]);
      }
    }
  }

  /** The text of a selection is estimated within its counted cost exactly if rounding pays for the separators. */
  lemma WithinCostIff(l: seq<string>, s: set<nat>)
    ensures EstimateTokens(Join(Pick(l, s))) <= Cost(l, s) <==> Slack(l, s) >= -1
  {
    SlackOfPicked(l, s);
    JoinLength(Pick(l, s));
  }

  /** No selection that keeps what must be kept has less to spare than the tightest one. */
  lemma {:induction false} TightestHasLeastSlack(l: seq<string>, preserved: string -> bool, s: set<nat>, t: set<nat>)
    requires forall i: nat :: i < |l| && preserved(l[i]) ==> i in s
    requires forall i: nat :: i < |l| ==> (i in t <==> preserved(l[i]) || |l[i]| % 4 == 0)
    ensures Slack(l, t) <= Slack(l, s)
  {
    if l != [] {
      TightestHasLeastSlack(l[..|l| - 1], preserved, s, t);
    }
  }

  /** Whatever the budget and the scores, the reported tokens stay within the budget or the preserved cost. */
  ghost predicate AlwaysObeys(message: string, preserved: string -> bool) {
    forall budget: nat, s: set<nat> :: budget > 0 && IsGreedy(Split(message), budget, preserved, s) ==>
      Describe(message, preserved, s).compressedTokens
        <= Larger(budget, Cost(Split(message), Preserved(Split(message), preserved)))
  }

  /** Keeping the tightest sentences is a greedy choice for the budget they cost. */
  lemma TightestIsGreedy(message: string, preserved: string -> bool)
    ensures var l := Split(message);
      IsGreedy(l, Cost(l, Tightest(l, preserved)), preserved, Tightest(l, preserved))
  {
    SplitGivesSentences(message);
    var l := Split(message);
    forall i: nat | i < |l| ensures EstimateTokens(l[i]) > 0 {
      assert l[i] != "";
    }
  }

  /**
   * When the budget is obeyed, for every budget and all scores: exactly if the preserved sentences and those whose
   * length is divisible by four leave, together, the rounding that their separators need.
   */
  lemma ObeysBudgetIff(message: string, preserved: string -> bool)
    ensures AlwaysObeys(message, preserved)
       <==> Slack(Split(message), Tightest(Split(message), preserved)) >= -1
  {
    var l := Split(message);
    var worst := Tightest(l, preserved);
    if Slack(l, worst) >= -1 {
      forall budget: nat, s: set<nat> | budget > 0 && IsGreedy(l, budget, preserved, s)
        ensures EstimateTokens(Join(Pick(l, s))) <= Larger(budget, Cost(l, Preserved(l, preserved)))
      {
        forall i: nat | i < |l| && preserved(l[i]) ensures i in s {
          assert i in Preserved(l, preserved);
        }
        TightestHasLeastSlack(l, preserved, s, worst);
        WithinCostIff(l, s);
        CountedCost(l, budget, preserved, s);
      }
    } else {
      TightestIsGreedy(message, preserved);
      WithinCostIff(l, worst);
      CostIsMonotone(l, Preserved(l, preserved), worst);
      var budget := Cost(l, worst);
      CostlessHasSlack(message, worst);
      assert Describe(message, preserved, worst).compressedTokens > Larger(budget, Cost(l, Preserved(l, preserved)));
    }
  }

  /** With nothing preserved: exactly if at most one sentence has a length divisible by four. */
  lemma ObeysBudgetIffOneTight(message: string, preserved: string -> bool)
    requires forall x :: x in Split(message) ==> !preserved(x)
    ensures AlwaysObeys(message, preserved)
       <==> |set i: nat | i < |Split(message)| && |Split(message)[i]| % 4 == 0| <= 1
  {
    var l := Split(message);
    ObeysBudgetIff(message, preserved);
    assert (set i: nat | i < |l| && |l[i]| % 4 == 0) == Tightest(l, preserved);
    SlackCounts(l, Tightest(l, preserved));
  }

  lemma {:induction false} SlackCounts(l: seq<string>, s: set<nat>)
    requires forall i :: i in s ==> i < |l| && |l[i]| % 4 == 0
    ensures Slack(l, s) == -|s|
  {
    if l != [] {
      var last := |l| - 1;
      SlackAgrees(l[..last], s, s - {last});
      SlackCounts(l[..last], s - {last});
    }
  }

  lemma {:induction false} SlackAgrees(l: seq<string>, s: set<nat>, t: set<nat>)
    requires forall i: nat :: i < |l| ==> (i in s <==> i in t)
    ensures Slack(l, s) == Slack(l, t)
  {
    if l != [] {
      SlackAgrees(l[..|l| - 1], s, t);
    }
  }

  lemma CostlessHasSlack(message: string, s: set<nat>)
    ensures Cost(Split(message), s) == 0 ==> Slack(Split(message), s) == 0
  {
    SplitGivesSentences(message);
    if Cost(Split(message), s) == 0 {
      SelectionWithoutCost(Split(message), s);
    }
  }

  lemma {:induction false} SelectionWithoutCost(l: seq<string>, s: set<nat>)
    requires (forall i :: 0 <= i < |l| ==> l[i] != "") && Cost(l, s) == 0
    ensures Slack(l, s) == 0
  {
    if l != [] {
      SelectionWithoutCost(l[..|l| - 1], s);
    }
  }

  predicate NothingPreserved(sentence: string) {
    false
  }

  const TWO_SENTENCES: seq<string> := ["aaa.", "bbb."]

  lemma TwoSentencesFacts()
    ensures AreSentences(TWO_SENTENCES) && Join(TWO_SENTENCES) == "aaa. bbb."
    ensures Cost(TWO_SENTENCES, {0, 1}) == 2 && EstimateTokens(Join(TWO_SENTENCES)) == 3
  {
    assert TWO_SENTENCES[1..] == ["bbb."];
    assert TWO_SENTENCES[..1] == ["aaa."] && TWO_SENTENCES[..1][..0] == [];
  }

  /** Within the budget by the counted cost, over it with the separator: the budget alone does not bound the text. */
  lemma SeparatorsCanExceedBudget()
    ensures IsGreedy(Split("aaa. bbb."), 2, NothingPreserved, {0, 1})
    ensures Cost(Split("aaa. bbb."), {0, 1}) == 2
    ensures Describe("aaa. bbb.", NothingPreserved, {0, 1}).compressedTokens == 3
  {
    TwoSentencesFacts();
    SplitUndoesJoin(TWO_SENTENCES);
    PickAll(TWO_SENTENCES, {0, 1});
    hide Split, Join, Pick, Cost, AreSentences, EstimateTokens;
    assert Split("aaa. bbb.") == TWO_SENTENCES;
  }
}
