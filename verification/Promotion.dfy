/** Threads that append receipts and promote champions under one lock, in any interleaving. */
module Promotion {
  import opened Options
  import opened Ledger

  type Tid = nat

  /** The champion file. */
  datatype Champion = Champion(candidate: string, hash: Text, promotedFrom: Text, at: int)

  const PROMOTE: string := "promote"

  function CurrentHash(c: Option<Champion>): Text {
    if c.Some? then c.value.hash else Plain("")
  }

  function MakeChampion(candidate: string, promotedFrom: Text, bodyAt: int, at: int): Champion {
    Champion(candidate, ChampionDigest(candidate, promotedFrom, bodyAt), promotedFrom, at)
  }

  function Payload(c: Champion): Json {
    Record([Str(Plain(c.candidate)), Str(c.hash), Str(c.promotedFrom), Number(c.at)])
  }

  /** What a receipt is for: an event of its own, or the champion that the thread installed as the number-th one. */
  datatype Job = Own(event: string, payload: Json) | ForPromotion(number: nat, champion: Champion)

  /** Where a thread stands. `Has...`, `Read...`, `Installed` and `Done` are inside the lock. */
  datatype Pc =
    | Idle
    | WantsAppend(job: Job)
    | HasAppend(job: Job)
    | ReadHead(job: Job, prev: Text)
    | WantsPromote(candidate: string, expected: Text)
    | HasPromote(candidate: string, expected: Text)
    | ReadChampion(candidate: string, expected: Text, current: Text)
    | Installed(number: nat, champion: Champion)
    | Done

  predicate InLock(pc: Pc) {
    pc.HasAppend? || pc.ReadHead? || pc.HasPromote? || pc.ReadChampion? || pc.Installed? || pc.Done?
  }

  /** The receipt of an installed champion: owed by a thread, written at a line, or lost because no file opened. */
  datatype Receipt = Owed(thread: Tid) | Written(line: nat) | Lost

  /**
   * `installed` and `receipts` record the history of installations. Steps only add to them, and the numbers that
   * threads carry only say which record to add to: they never hold a thread back (`WritesAreNeverBlocked`), and what
   * a thread writes comes from the thread itself.
   */
  datatype State = State(
    lock: Option<Tid>, lines: seq<Line>, champion: Option<Champion>, pcs: map<Tid, Pc>,
    installed: seq<Champion>, receipts: seq<Receipt>)
  {
    function At(t: Tid): Pc {
      if t in pcs then pcs[t] else Idle
    }

    function Move(t: Tid, pc: Pc): State {
      this.(pcs := pcs[t := pc])
    }
  }

  // ---- steps ----

  /** One atomic step of one thread. `written` says whether the file system accepts a write. */
  datatype Step =
    | StartAppend(t: Tid, event: string, payload: Json)
    | StartPromote(t: Tid, candidate: string, expected: Text)
    | Acquire(t: Tid)
    | TakeHead(t: Tid)
    | WriteLine(t: Tid, id: Json, at: int, written: bool)
    | TakeChampion(t: Tid)
    | Refuse(t: Tid)
    | Install(t: Tid, bodyAt: int, at: int, written: bool)
    | Unlock(t: Tid)
    | AddUnparsable

  function EventOf(job: Job): string {
    if job.Own? then job.event else PROMOTE
  }

  function PayloadOf(job: Job): Json {
    if job.Own? then job.payload else Payload(job.champion)
  }

  predicate Enabled(s: State, step: Step) {
    match step
    case StartAppend(t, event, payload) => s.At(t).Idle? && event != PROMOTE
    case StartPromote(t, candidate, expected) => s.At(t).Idle?
    case Acquire(t) => s.lock.None? && (s.At(t).WantsAppend? || s.At(t).WantsPromote?)
    case TakeHead(t) => s.At(t).HasAppend?
    case WriteLine(t, id, at, written) =>
      s.At(t).ReadHead? && (s.At(t).job.ForPromotion? ==> s.At(t).job.number < |s.installed| == |s.receipts|)
    case TakeChampion(t) => s.At(t).HasPromote?
    case Refuse(t) => s.At(t).ReadChampion? && s.At(t).current != s.At(t).expected
    case Install(t, bodyAt, at, written) => s.At(t).ReadChampion? && s.At(t).current == s.At(t).expected
    case Unlock(t) => s.At(t).Installed? || s.At(t).Done?
    case AddUnparsable => true
  }

  function Apply(key: int, s: State, step: Step): State
    requires Enabled(s, step)
  {
    match step
    case StartAppend(t, event, payload) => s.Move(t, WantsAppend(Own(event, payload)))
    case StartPromote(t, candidate, expected) => s.Move(t, WantsPromote(candidate, expected))
    case Acquire(t) =>
      var pc := s.At(t);
      var next := if pc.WantsAppend? then HasAppend(pc.job) else HasPromote(pc.candidate, pc.expected);
      s.Move(t, next).(lock := Some(t))
    case TakeHead(t) => s.Move(t, ReadHead(s.At(t).job, Head(Entries(s.lines))))
    case WriteLine(t, id, at, written) =>
      var job := s.At(t).job;
      var entry := MakeEntry(key, s.At(t).prev, id, EventOf(job), PayloadOf(job), at);
      var lines := if written then s.lines + [Parsed(entry)] else s.lines;
      var receipts := if job.Own? then s.receipts
                      else s.receipts[job.number := if written then Written(|s.lines|) else Lost];
      s.Move(t, Done).(lines := lines, receipts := receipts)
    case TakeChampion(t) =>
      s.Move(t, ReadChampion(s.At(t).candidate, s.At(t).expected, CurrentHash(s.champion)))
    case Refuse(t) => s.Move(t, Done)
    case Install(t, bodyAt, at, written) =>
      if written then
        var c := MakeChampion(s.At(t).candidate, s.At(t).current, bodyAt, at);
        s.Move(t, Installed(|s.installed|, c)).(
          champion := Some(c), installed := s.installed + [c], receipts := s.receipts + [Owed(t)])
      else s.Move(t, Done)
    case Unlock(t) =>
      var pc := s.At(t);
      var next := if pc.Installed? then WantsAppend(ForPromotion(pc.number, pc.champion)) else Idle;
      s.Move(t, next).(lock := None)
    case AddUnparsable => s.(lines := s.lines + [Unparsable])
  }

  /** A start: no thread active, any champion, any ledger that was only appended to. */
  ghost predicate IsInitial(key: int, s: State) {
    s.lock.None? && s.pcs == map[] && s.installed == [] && s.receipts == [] && IsBuilt(key, Entries(s.lines))
  }

  /** The steps can be taken one after the other. */
  predicate IsRun(key: int, s: State, steps: seq<Step>)
    decreases |steps|
  {
    steps == [] || (Enabled(s, steps[0]) && IsRun(key, Apply(key, s, steps[0]), steps[1..]))
  }

  function End(key: int, s: State, steps: seq<Step>): State
    requires IsRun(key, s, steps)
    decreases |steps|
  {
    if steps == [] then s else End(key, Apply(key, s, steps[0]), steps[1..])
  }

  // ---- the invariant ----

  /** Exactly the thread that holds the lock is inside. */
  ghost predicate LockHeld(s: State) {
    forall t: Tid :: InLock(s.At(t)) <==> s.lock == Some(t)
  }

  /** The ledger is built, and a head that was read under the lock is still the head. */
  ghost predicate LedgerKept(key: int, s: State) {
    IsBuilt(key, Entries(s.lines)) && forall t: Tid :: s.At(t).ReadHead? ==> s.At(t).prev == Head(Entries(s.lines))
  }

  /** Champion i was promoted from champion i - 1, and its hash covers that. */
  ghost predicate Follows(start: Text, installed: seq<Champion>, i: nat)
    requires i < |installed|
  {
    installed[i].promotedFrom == (if i == 0 then start else installed[i - 1].hash)
    && installed[i].hash.ChampionDigest? && installed[i].hash.promotedFrom == installed[i].promotedFrom
  }

  ghost predicate IsChain(start: Text, installed: seq<Champion>) {
    forall i: nat :: i < |installed| ==> Follows(start, installed, i)
  }

  /** The installed champions form a chain that ends in the current one, and a champion read is still current. */
  ghost predicate ChampionKept(start: Option<Champion>, s: State) {
    && IsChain(CurrentHash(start), s.installed)
    && s.champion == (if s.installed == [] then start else Some(s.installed[|s.installed| - 1]))
    && forall t: Tid :: s.At(t).ReadChampion? ==> s.At(t).current == CurrentHash(s.champion)
  }

  /** The thread still owes the receipt of this installation. */
  predicate Owes(pc: Pc, number: nat) {
    || (pc.Installed? && pc.number == number)
    || (HasJob(pc) && pc.job.ForPromotion? && pc.job.number == number)
  }

  predicate HasJob(pc: Pc) {
    pc.WantsAppend? || pc.HasAppend? || pc.ReadHead?
  }

  /** The champion whose receipt the thread still owes. */
  function Carried(pc: Pc): Champion
    requires pc.Installed? || (HasJob(pc) && pc.job.ForPromotion?)
  {
    if pc.Installed? then pc.champion else pc.job.champion
  }

  predicate IsPromotionLine(line: Line) {
    line.Parsed? && line.entry.event == Str(Plain(PROMOTE))
  }

  /** The jobs that own events are not called promotions. */
  ghost predicate OwnJobsNamed(s: State) {
    forall t: Tid :: HasJob(s.At(t)) && s.At(t).job.Own? ==> s.At(t).job.event != PROMOTE
  }

  /** A thread that owes the receipt of an installation carries the champion that was installed. */
  ghost predicate ChampionsCarried(s: State) {
    forall t: Tid, n: nat :: Owes(s.At(t), n) ==> n < |s.installed| && Carried(s.At(t)) == s.installed[n]
  }

  /** Owed receipts and owing threads correspond. */
  ghost predicate DebtsKept(s: State) {
    && |s.receipts| == |s.installed|
    && (forall t: Tid, n: nat :: Owes(s.At(t), n) ==> n < |s.receipts| && s.receipts[n] == Owed(t))
    && (forall n: nat :: n < |s.receipts| && s.receipts[n].Owed? ==> Owes(s.At(s.receipts[n].thread), n))
  }

  /** Written receipts and promotion lines beyond the first `base` lines correspond one to one. */
  ghost predicate ReceiptsKept(base: nat, s: State) {
    && |s.receipts| == |s.installed|
    && base <= |s.lines|
    && (forall n: nat :: n < |s.receipts| && s.receipts[n].Written? ==>
          base <= s.receipts[n].line < |s.lines|
          && IsPromotionLine(s.lines[s.receipts[n].line])
          && s.lines[s.receipts[n].line].entry.payload == Payload(s.installed[n]))
    && LinesDistinct(s.receipts)
    && (forall k: nat :: base <= k < |s.lines| && IsPromotionLine(s.lines[k])
          ==> HasReceipt(s.receipts, k))
  }

  ghost predicate Inv(key: int, start: State, s: State) {
    && LockHeld(s) && LedgerKept(key, s) && ChampionKept(start.champion, s)
    && OwnJobsNamed(s) && DebtsKept(s) && ChampionsCarried(s) && ReceiptsKept(|start.lines|, s)
  }

  // ---- every step keeps it ----

  lemma StepKeepsLock(key: int, s: State, step: Step)
    requires LockHeld(s) && Enabled(s, step)
    ensures LockHeld(Apply(key, s, step))
  {
  }

  lemma OneInside(s: State, t: Tid, u: Tid)
    requires LockHeld(s) && InLock(s.At(t)) && InLock(s.At(u))
    ensures t == u
  {
  }

  /** A step moves its own thread only. */
  lemma OthersStay(key: int, s: State, step: Step, u: Tid)
    requires Enabled(s, step) && (step.AddUnparsable? || u != step.t)
    ensures Apply(key, s, step).At(u) == s.At(u)
  {
  }

  /** What the moved thread does next. */
  lemma Moved(key: int, s: State, step: Step)
    requires Enabled(s, step) && !step.AddUnparsable?
    ensures var pc, next := s.At(step.t), Apply(key, s, step).At(step.t);
      && (next.ReadHead? ==> step.TakeHead? && next.prev == Head(Entries(s.lines)))
      && (next.ReadHead? ==> pc.HasAppend? && next.job == pc.job)
      && (next.ReadChampion? ==> step.TakeChampion? && next.current == CurrentHash(s.champion))
      && (next.HasAppend? ==> pc.WantsAppend? && next.job == pc.job)
      && (next.WantsAppend? ==>
            (step.StartAppend? && next.job.Own? && next.job.event != PROMOTE)
            || (pc.Installed? && next.job == ForPromotion(pc.number, pc.champion)))
  {
  }

  lemma StepKeepsHead(key: int, s: State, step: Step, u: Tid)
    requires LockHeld(s) && LedgerKept(key, s) && Enabled(s, step) && Apply(key, s, step).At(u).ReadHead?
    ensures Apply(key, s, step).At(u).prev == Head(Entries(Apply(key, s, step).lines))
  {
    EntriesAppend(s.lines, MakeEntry(key, Zeros, Null, "", Null, 0));
    if step.AddUnparsable? || u != step.t {
      OthersStay(key, s, step, u);
      if step.WriteLine? {
        OneInside(s, step.t, u);
      }
    } else {
      Moved(key, s, step);
    }
  }

  lemma StepKeepsLedger(key: int, s: State, step: Step)
    requires LockHeld(s) && LedgerKept(key, s) && Enabled(s, step)
    ensures LedgerKept(key, Apply(key, s, step))
  {
    forall u: Tid | Apply(key, s, step).At(u).ReadHead?
      ensures Apply(key, s, step).At(u).prev == Head(Entries(Apply(key, s, step).lines))
    {
      StepKeepsHead(key, s, step, u);
    }
    match step
    case WriteLine(t, id, at, written) =>
      if written {
        var job := s.At(t).job;
        AppendKeepsBuilt(key, Entries(s.lines), id, EventOf(job), PayloadOf(job), at);
        EntriesAppend(s.lines, MakeEntry(key, s.At(t).prev, id, EventOf(job), PayloadOf(job), at));
      }
    case AddUnparsable =>
      EntriesAppend(s.lines, MakeEntry(key, Zeros, Null, "", Null, 0));
    case _ =>
  }

  lemma StepKeepsChampion(key: int, start: Option<Champion>, s: State, step: Step)
    requires LockHeld(s) && ChampionKept(start, s) && Enabled(s, step)
    ensures ChampionKept(start, Apply(key, s, step))
  {
    var s' := Apply(key, s, step);
    forall u: Tid | s'.At(u).ReadChampion? ensures s'.At(u).current == CurrentHash(s'.champion) {
      if step.AddUnparsable? || u != step.t {
        OthersStay(key, s, step, u);
        if step.Install? {
          OneInside(s, step.t, u);
        }
      } else {
        Moved(key, s, step);
      }
    }
    if step.Install? && step.written {
      assert s.At(step.t).current == CurrentHash(s.champion);
      ChainGrows(CurrentHash(start), s.installed,
        MakeChampion(s.At(step.t).candidate, s.At(step.t).current, step.bodyAt, step.at));
    }
  }

  lemma ChainGrows(start: Text, installed: seq<Champion>, c: Champion)
    requires IsChain(start, installed)
    requires c.promotedFrom == if installed == [] then start else installed[|installed| - 1].hash
    requires c.hash.ChampionDigest? && c.hash.promotedFrom == c.promotedFrom
    ensures IsChain(start, installed + [c])
  {
    var longer := installed + [c];
    forall i: nat | i < |longer| ensures Follows(start, longer, i) {
      if i < |installed| {
        assert Follows(start, installed, i);
      }
    }
  }

  lemma StepKeepsNames(key: int, s: State, step: Step)
    requires OwnJobsNamed(s) && Enabled(s, step)
    ensures OwnJobsNamed(Apply(key, s, step))
  {
    var s' := Apply(key, s, step);
    forall u: Tid | HasJob(s'.At(u)) && s'.At(u).job.Own? ensures s'.At(u).job.event != PROMOTE {
      if step.AddUnparsable? || u != step.t {
        OthersStay(key, s, step, u);
      } else {
        Moved(key, s, step);
      }
    }
  }

  /** How a step changes what its thread owes. */
  lemma MovedDebt(key: int, s: State, step: Step, n: nat)
    requires Enabled(s, step) && !step.AddUnparsable?
    ensures var pc, next := s.At(step.t), Apply(key, s, step).At(step.t);
      Owes(next, n) <==>
        if step.Install? && step.written then n == |s.installed|
        else Owes(pc, n) && !step.WriteLine?
  {
  }

  /** What a thread owes and carries on it owed and carried before, unless it has just installed it. */
  lemma MovedCarries(key: int, s: State, step: Step, n: nat)
    requires Enabled(s, step) && !step.AddUnparsable? && Owes(Apply(key, s, step).At(step.t), n)
    ensures var pc, s' := s.At(step.t), Apply(key, s, step);
      if step.Install? && step.written
      then n == |s.installed| && s'.installed == s.installed + [Carried(s'.At(step.t))]
      else Owes(pc, n) && Carried(s'.At(step.t)) == Carried(pc)
  {
  }

  lemma InstalledGrows(key: int, s: State, step: Step)
    requires Enabled(s, step)
    ensures s.installed <= Apply(key, s, step).installed
  {
  }

  lemma CarriedIsInstalled(s: State, t: Tid, n: nat)
    requires ChampionsCarried(s) && Owes(s.At(t), n)
    ensures n < |s.installed| && Carried(s.At(t)) == s.installed[n]
  {
    hide Carried;
  }

  lemma CarriedStays(key: int, s: State, step: Step, u: Tid, n: nat)
    requires ChampionsCarried(s) && Enabled(s, step) && Owes(Apply(key, s, step).At(u), n)
    ensures var s' := Apply(key, s, step); n < |s'.installed| && Carried(s'.At(u)) == s'.installed[n]
  {
    hide ChampionsCarried;
    InstalledGrows(key, s, step);
    if step.AddUnparsable? || u != step.t {
      OthersStay(key, s, step, u);
      CarriedIsInstalled(s, u, n);
    } else {
      MovedCarries(key, s, step, n);
      if !(step.Install? && step.written) {
        CarriedIsInstalled(s, u, n);
      }
    }
  }

  lemma StepKeepsCarried(key: int, s: State, step: Step)
    requires ChampionsCarried(s) && Enabled(s, step)
    ensures ChampionsCarried(Apply(key, s, step))
  {
    var s' := Apply(key, s, step);
    forall u: Tid, n: nat | Owes(s'.At(u), n) ensures n < |s'.installed| && Carried(s'.At(u)) == s'.installed[n] {
      CarriedStays(key, s, step, u, n);
    }
  }

  lemma DebtIsRecorded(s: State, t: Tid, n: nat)
    requires DebtsKept(s) && Owes(s.At(t), n)
    ensures n < |s.receipts| == |s.installed| && s.receipts[n] == Owed(t)
  {
    hide Owes;
  }

  lemma OthersStillOwe(key: int, s: State, step: Step, u: Tid, n: nat)
    requires DebtsKept(s) && Enabled(s, step) && (step.AddUnparsable? || u != step.t) && Owes(s.At(u), n)
    ensures var s' := Apply(key, s, step); n < |s'.receipts| && s'.receipts[n] == Owed(u)
  {
    DebtIsRecorded(s, u, n);
    if step.WriteLine? && s.At(step.t).job.ForPromotion? {
      DebtIsRecorded(s, step.t, s.At(step.t).job.number);
    }
  }

  lemma MoverOwes(key: int, s: State, step: Step, n: nat)
    requires DebtsKept(s) && Enabled(s, step) && !step.AddUnparsable?
    requires Owes(Apply(key, s, step).At(step.t), n)
    ensures var s' := Apply(key, s, step); n < |s'.receipts| && s'.receipts[n] == Owed(step.t)
  {
    MovedDebt(key, s, step, n);
    if !(step.Install? && step.written) {
      DebtIsRecorded(s, step.t, n);
    }
  }

  lemma StepKeepsDebts(key: int, s: State, step: Step)
    requires DebtsKept(s) && Enabled(s, step)
    ensures DebtsKept(Apply(key, s, step))
  {
    StepKeepsCounts(key, s, step);
    hide Owes, Apply, Enabled;
    var s' := Apply(key, s, step);
    forall u: Tid, n: nat | Owes(s'.At(u), n) ensures n < |s'.receipts| && s'.receipts[n] == Owed(u) {
      if step.AddUnparsable? || u != step.t {
        OthersStay(key, s, step, u);
        OthersStillOwe(key, s, step, u, n);
      } else {
        MoverOwes(key, s, step, n);
      }
    }
    forall n: nat | n < |s'.receipts| && s'.receipts[n].Owed? ensures Owes(s'.At(s'.receipts[n].thread), n) {
      DebtorOwes(key, s, step, n);
    }
  }

  lemma StepKeepsCounts(key: int, s: State, step: Step)
    requires DebtsKept(s) && Enabled(s, step)
    ensures |Apply(key, s, step).receipts| == |Apply(key, s, step).installed|
  {
  }

  lemma DebtorOwes(key: int, s: State, step: Step, n: nat)
    requires DebtsKept(s) && Enabled(s, step)
    requires var s' := Apply(key, s, step); n < |s'.receipts| && s'.receipts[n].Owed?
    ensures var s' := Apply(key, s, step); Owes(s'.At(s'.receipts[n].thread), n)
  {
    var u := Apply(key, s, step).receipts[n].thread;
    if step.AddUnparsable? || u != step.t {
      OthersStay(key, s, step, u);
    } else {
      MovedDebt(key, s, step, n);
    }
  }

  ghost predicate HasReceipt(receipts: seq<Receipt>, k: nat) {
    exists n: nat :: n < |receipts| && receipts[n] == Written(k)
  }

  lemma WriteKeepsReceipts(key: int, base: nat, s: State, step: Step)
    requires DebtsKept(s) && OwnJobsNamed(s) && ChampionsCarried(s) && ReceiptsKept(base, s)
    requires Enabled(s, step) && step.WriteLine?
    ensures ReceiptsKept(base, Apply(key, s, step))
  {
    var s', job := Apply(key, s, step), s.At(step.t).job;
    if job.ForPromotion? {
      DebtIsRecorded(s, step.t, job.number);
      CarriedIsInstalled(s, step.t, job.number);
    }
    forall k: nat | base <= k < |s'.lines| && IsPromotionLine(s'.lines[k]) ensures HasReceipt(s'.receipts, k) {
      if k < |s.lines| {
        assert s'.lines[k] == s.lines[k];
        var n: nat :| n < |s.receipts| && s.receipts[n] == Written(k);
        assert s'.receipts[n] == Written(k);
      } else {
        assert s'.receipts[job.number] == Written(k);
      }
    }
  }

  lemma InstallKeepsReceipts(key: int, base: nat, s: State, step: Step)
    requires ReceiptsKept(base, s) && Enabled(s, step) && step.Install?
    ensures ReceiptsKept(base, Apply(key, s, step))
  {
    var s' := Apply(key, s, step);
    forall k: nat | base <= k < |s'.lines| && IsPromotionLine(s'.lines[k]) ensures HasReceipt(s'.receipts, k) {
      var n: nat :| n < |s.receipts| && s.receipts[n] == Written(k);
      assert s'.receipts[n] == Written(k);
    }
  }

  lemma UnparsableKeepsReceipts(key: int, base: nat, s: State)
    requires ReceiptsKept(base, s)
    ensures ReceiptsKept(base, Apply(key, s, AddUnparsable))
  {
    var s' := Apply(key, s, AddUnparsable);
    forall k: nat | base <= k < |s'.lines| && IsPromotionLine(s'.lines[k]) ensures HasReceipt(s'.receipts, k) {
      assert k < |s.lines| && s'.lines[k] == s.lines[k];
    }
  }

  lemma StepKeepsReceipts(key: int, base: nat, s: State, step: Step)
    requires DebtsKept(s) && OwnJobsNamed(s) && ChampionsCarried(s) && ReceiptsKept(base, s) && Enabled(s, step)
    ensures ReceiptsKept(base, Apply(key, s, step))
  {
    hide DebtsKept, OwnJobsNamed, ChampionsCarried;
    match step
    case WriteLine(_, _, _, _) => WriteKeepsReceipts(key, base, s, step);
    case Install(_, _, _, _) => InstallKeepsReceipts(key, base, s, step);
    case AddUnparsable => UnparsableKeepsReceipts(key, base, s);
    case _ =>
  }

  // ---- every run ----

  lemma {:induction false} RunKeepsInv(key: int, start: State, s: State, steps: seq<Step>)
    requires Inv(key, start, s) && IsRun(key, s, steps)
    ensures Inv(key, start, End(key, s, steps))
    decreases |steps|
  {
    if steps != [] {
      hide LockHeld, LedgerKept, ChampionKept, OwnJobsNamed, DebtsKept, ChampionsCarried, ReceiptsKept, Enabled, Apply;
      StepKeepsLock(key, s, steps[0]);
      StepKeepsLedger(key, s, steps[0]);
      StepKeepsChampion(key, start.champion, s, steps[0]);
      StepKeepsNames(key, s, steps[0]);
      StepKeepsDebts(key, s, steps[0]);
      StepKeepsCarried(key, s, steps[0]);
      StepKeepsReceipts(key, |start.lines|, s, steps[0]);
      RunKeepsInv(key, start, Apply(key, s, steps[0]), steps[1..]);
    }
  }

  lemma InitialInv(key: int, start: State)
    requires IsInitial(key, start)
    ensures Inv(key, start, start)
  {
    IdleOwesNothing(start);
    assert LockHeld(start) && LedgerKept(key, start) && ChampionKept(start.champion, start);
    assert OwnJobsNamed(start) && ChampionsCarried(start) && ReceiptsKept(|start.lines|, start);
  }

  lemma IdleOwesNothing(s: State)
    requires s.pcs == map[] && s.receipts == [] && s.installed == []
    ensures DebtsKept(s) && ChampionsCarried(s) && forall t: Tid :: s.At(t) == Idle
  {
    forall t: Tid, n: nat ensures !Owes(s.At(t), n) {
    }
  }

  /** The bookkeeping in the guard of a write never holds a thread back. */
  lemma WritesAreNeverBlocked(key: int, start: State, s: State, t: Tid, id: Json, at: int, written: bool)
    requires Inv(key, start, s) && s.At(t).ReadHead?
    ensures Enabled(s, WriteLine(t, id, at, written))
  {
    if s.At(t).job.ForPromotion? {
      DebtIsRecorded(s, t, s.At(t).job.number);
    }
  }

  /** In every interleaving, whatever unparsable lines come in between, the ledger verifies. */
  lemma LedgerAlwaysVerifies(key: int, start: State, steps: seq<Step>)
    requires IsInitial(key, start) && IsRun(key, start, steps)
    ensures Verifies(key, Zeros, Entries(End(key, start, steps).lines))
  {
    InitialInv(key, start);
    RunKeepsInv(key, start, start, steps);
  }

  /** How many champion digests are stacked on one another. */
  function Generation(t: Text): nat {
    if t.ChampionDigest? then 1 + Generation(t.promotedFrom) else 0
  }

  lemma {:induction false} GenerationsGrow(start: Text, installed: seq<Champion>, i: nat)
    requires IsChain(start, installed) && i < |installed|
    ensures Generation(installed[i].promotedFrom) == Generation(start) + i
    decreases i
  {
    assert Follows(start, installed, i);
    if i > 0 {
      GenerationsGrow(start, installed, i - 1);
      assert Follows(start, installed, i - 1);
    }
  }

  /**
   * In every interleaving the installed champions form one linear chain that starts from the champion found at the
   * beginning and ends in the present one, and no expected hash ever lets two promotions succeed.
   */
  lemma PromotionsAreLinear(key: int, start: State, steps: seq<Step>)
    requires IsInitial(key, start) && IsRun(key, start, steps)
    ensures var s := End(key, start, steps);
      && IsChain(CurrentHash(start.champion), s.installed)
      && (s.installed != [] ==> s.champion == Some(s.installed[|s.installed| - 1]))
      && (forall i, j :: 0 <= i < j < |s.installed| ==> s.installed[i].promotedFrom != s.installed[j].promotedFrom)
  {
    InitialInv(key, start);
    RunKeepsInv(key, start, start, steps);
    var s := End(key, start, steps);
    forall i: nat, j: nat | i < j < |s.installed| ensures s.installed[i].promotedFrom != s.installed[j].promotedFrom {
      GenerationsGrow(CurrentHash(start.champion), s.installed, i);
      GenerationsGrow(CurrentHash(start.champion), s.installed, j);
    }
  }

  // ---- what was asked for is what is done ----

  predicate IsRequest(step: Step, t: Tid) {
    (step.StartAppend? || step.StartPromote?) && step.t == t
  }

  /** The latest request of a thread. */
  function LatestRequest(steps: seq<Step>, t: Tid): Option<Step> {
    if steps == [] then None
    else if IsRequest(steps[|steps| - 1], t) then Some(steps[|steps| - 1])
    else LatestRequest(steps[..|steps| - 1], t)
  }

  /** A champion as asked for: the candidate, promoted from the expected hash, and a digest that covers both. */
  predicate IsChampionFor(c: Champion, candidate: string, expected: Text) {
    && c.candidate == candidate && c.promotedFrom == expected
    && c.hash.ChampionDigest? && c.hash.candidate == candidate && c.hash.promotedFrom == expected
  }

  /** The thread has its request with it, unchanged, wherever it stands. */
  ghost predicate CarriesRequest(pc: Pc, asked: Option<Step>) {
    && (pc.WantsPromote? || pc.HasPromote? || pc.ReadChampion? ==>
          asked.Some? && asked.value.StartPromote?
          && asked.value.candidate == pc.candidate && asked.value.expected == pc.expected)
    && (pc.Installed? || (HasJob(pc) && pc.job.ForPromotion?) ==>
          asked.Some? && asked.value.StartPromote?
          && IsChampionFor(Carried(pc), asked.value.candidate, asked.value.expected))
    && (HasJob(pc) && pc.job.Own? ==>
          asked.Some? && asked.value.StartAppend?
          && asked.value.event == pc.job.event && asked.value.payload == pc.job.payload)
  }

  lemma StepCarriesRequest(key: int, s: State, steps: seq<Step>, step: Step, u: Tid)
    requires Enabled(s, step) && CarriesRequest(s.At(u), LatestRequest(steps, u))
    ensures CarriesRequest(Apply(key, s, step).At(u), LatestRequest(steps + [step], u))
  {
    assert (steps + [step])[..|steps|] == steps;
    if step.AddUnparsable? || u != step.t {
      OthersStay(key, s, step, u);
    }
  }

  lemma {:induction false} RunCarriesRequests(key: int, s: State, before: seq<Step>, steps: seq<Step>, t: Tid)
    requires IsRun(key, s, steps) && CarriesRequest(s.At(t), LatestRequest(before, t))
    ensures CarriesRequest(End(key, s, steps).At(t), LatestRequest(before + steps, t))
    decreases |steps|
  {
    hide CarriesRequest;
    if steps == [] {
      assert before + steps == before;
    } else {
      StepCarriesRequest(key, s, before, steps[0], t);
      RunCarriesRequests(key, Apply(key, s, steps[0]), before + [steps[0]], steps[1..], t);
      assert before + [steps[0]] + steps[1..] == before + steps;
    }
  }

  /** In every interleaving every thread works on its latest request. */
  lemma WorksOnRequest(key: int, start: State, steps: seq<Step>, t: Tid)
    requires IsInitial(key, start) && IsRun(key, start, steps)
    ensures CarriesRequest(End(key, start, steps).At(t), LatestRequest(steps, t))
  {
    assert start.At(t) == Idle && [] + steps == steps;
    RunCarriesRequests(key, start, [], steps, t);
  }

  /** The hash in the champion file; the empty text if there is none. */
  predicate FileHolds(champion: Option<Champion>, hash: Text) {
    match champion
    case None => hash == Plain("")
    case Some(c) => hash == c.hash
  }

  /**
   * Compare and swap: in every interleaving a thread that was asked to promote and has read the champion under the
   * lock can go on to install if and only if the champion file still holds the hash the caller expects, and is
   * refused otherwise. What it installs is the caller's candidate, promoted from exactly that champion.
   */
  lemma InstallsAsExpected(key: int, start: State, steps: seq<Step>, t: Tid, bodyAt: int, at: int, written: bool)
    requires IsInitial(key, start) && IsRun(key, start, steps) && End(key, start, steps).At(t).ReadChampion?
    ensures LatestRequest(steps, t).Some? && LatestRequest(steps, t).value.StartPromote?
    ensures var s, asked := End(key, start, steps), LatestRequest(steps, t).value;
      var install := Install(t, bodyAt, at, written);
      && (Enabled(s, install) <==> FileHolds(s.champion, asked.expected))
      && (Enabled(s, Refuse(t)) <==> !FileHolds(s.champion, asked.expected))
      && (Enabled(s, install) ==>
            Apply(key, s, install).champion ==
              if written then
                Some(Champion(asked.candidate, ChampionDigest(asked.candidate, asked.expected, bodyAt),
                              asked.expected, at))
              else s.champion)
  {
    InitialInv(key, start);
    RunKeepsInv(key, start, start, steps);
    WorksOnRequest(key, start, steps, t);
    var s := End(key, start, steps);
    assert ChampionKept(start.champion, s);
    hide End, IsRun, LatestRequest;
  }

  /**
   * The line that a thread writes is the receipt it was asked for: the event and payload of the caller, or a
   * promotion of the caller's candidate; with the given id and time, chained to the head of the ledger.
   */
  lemma WritesAsAsked(key: int, start: State, steps: seq<Step>, t: Tid, id: Json, at: int)
    requires IsInitial(key, start) && IsRun(key, start, steps) && End(key, start, steps).At(t).ReadHead?
    ensures LatestRequest(steps, t).Some?
    ensures var s, asked := End(key, start, steps), LatestRequest(steps, t).value;
      var write := WriteLine(t, id, at, true);
      && Enabled(s, write)
      && var s' := Apply(key, s, write);
         && |s'.lines| == |s.lines| + 1 && s'.lines[..|s.lines|] == s.lines && s'.lines[|s.lines|].Parsed?
         && var e := s'.lines[|s.lines|].entry;
            && e.id == id && e.at == Number(at) && e.prevHash == Str(Head(Entries(s.lines)))
            && (asked.StartAppend? ==> e.event == Str(Plain(asked.event)) && e.payload == asked.payload)
            && (asked.StartPromote? ==> e.event == Str(Plain("promote")))
            && (asked.StartPromote? ==> exists hash, when ::
                  e.payload == Record([Str(Plain(asked.candidate)), Str(hash), Str(asked.expected), Number(when)]))
  {
    InitialInv(key, start);
    RunKeepsInv(key, start, start, steps);
    WorksOnRequest(key, start, steps, t);
    var s := End(key, start, steps);
    WritesAreNeverBlocked(key, start, s, t, id, at, true);
    assert LedgerKept(key, s) && OwnJobsNamed(s);
    hide End, IsRun, LatestRequest, IsBuilt, Head, Entries, Owes;
  }

  // ---- calls that nobody disturbs ----

  lemma RunStarts(key: int, s: State, first: Step, rest: seq<Step>, steps: seq<Step>)
    requires Enabled(s, first) && IsRun(key, Apply(key, s, first), rest) && steps == [first] + rest
    ensures IsRun(key, s, steps) && End(key, s, steps) == End(key, Apply(key, s, first), rest)
  {
    assert steps[0] == first && steps[1..] == rest;
  }

  lemma {:induction false} RunsCompose(key: int, s: State, a: seq<Step>, b: seq<Step>)
    requires IsRun(key, s, a) && IsRun(key, End(key, s, a), b)
    ensures IsRun(key, s, a + b) && End(key, s, a + b) == End(key, End(key, s, a), b)
    decreases |a|
  {
    if a == [] {
      assert a + b == b;
    } else {
      RunsCompose(key, Apply(key, s, a[0]), a[1..], b);
      assert (a + b)[0] == a[0] && (a + b)[1..] == a[1..] + b;
    }
  }

  /** Taking the lock, writing the receipt that the thread wants, and giving the lock back. */
  function AppendSteps(t: Tid, id: Json, at: int): seq<Step> {
    [Acquire(t), TakeHead(t), WriteLine(t, id, at, true), Unlock(t)]
  }

  lemma AppendAlone(key: int, s: State, t: Tid, id: Json, at: int)
    requires s.lock.None? && s.At(t).WantsAppend?
    requires s.At(t).job.ForPromotion? ==> s.At(t).job.number < |s.installed| == |s.receipts|
    ensures IsRun(key, s, AppendSteps(t, id, at))
    ensures var s', job := End(key, s, AppendSteps(t, id, at)), s.At(t).job;
      && s'.At(t).Idle? && s'.lock.None? && s'.champion == s.champion
      && s'.lines == s.lines + [Parsed(MakeEntry(key, Head(Entries(s.lines)), id, EventOf(job), PayloadOf(job), at))]
  {
    hide Head, Entries, MakeEntry, EventOf, PayloadOf;
    var s1 := Apply(key, s, Acquire(t));
    var s2 := Apply(key, s1, TakeHead(t));
    var s3 := Apply(key, s2, WriteLine(t, id, at, true));
    RunStarts(key, s3, Unlock(t), [], [Unlock(t)]);
    RunStarts(key, s2, WriteLine(t, id, at, true), [Unlock(t)], [WriteLine(t, id, at, true), Unlock(t)]);
    RunStarts(key, s1, TakeHead(t), [WriteLine(t, id, at, true), Unlock(t)],
              [TakeHead(t), WriteLine(t, id, at, true), Unlock(t)]);
    RunStarts(key, s, Acquire(t), [TakeHead(t), WriteLine(t, id, at, true), Unlock(t)], AppendSteps(t, id, at));
  }

  /** Comparing and swapping under the lock. */
  function SwapSteps(t: Tid, candidate: string, expected: Text, bodyAt: int, at: int): seq<Step> {
    [StartPromote(t, candidate, expected), Acquire(t), TakeChampion(t), Install(t, bodyAt, at, true), Unlock(t)]
  }

  lemma SwapAlone(key: int, s: State, t: Tid, candidate: string, expected: Text, bodyAt: int, at: int)
    requires s.lock.None? && s.At(t).Idle? && FileHolds(s.champion, expected) && |s.installed| == |s.receipts|
    ensures IsRun(key, s, SwapSteps(t, candidate, expected, bodyAt, at))
    ensures var s' := End(key, s, SwapSteps(t, candidate, expected, bodyAt, at));
      var champion := Champion(candidate, ChampionDigest(candidate, expected, bodyAt), expected, at);
      && s'.At(t) == WantsAppend(ForPromotion(|s.installed|, champion))
      && s'.lock.None? && s'.lines == s.lines && s'.champion == Some(champion)
      && |s'.installed| == |s'.receipts| == |s.installed| + 1
  {
    var start, install := StartPromote(t, candidate, expected), Install(t, bodyAt, at, true);
    var s1 := Apply(key, s, start);
    var s2 := Apply(key, s1, Acquire(t));
    var s3 := Apply(key, s2, TakeChampion(t));
    var s4 := Apply(key, s3, install);
    RunStarts(key, s4, Unlock(t), [], [Unlock(t)]);
    RunStarts(key, s3, install, [Unlock(t)], [install, Unlock(t)]);
    RunStarts(key, s2, TakeChampion(t), [install, Unlock(t)], [TakeChampion(t), install, Unlock(t)]);
    RunStarts(key, s1, Acquire(t), [TakeChampion(t), install, Unlock(t)],
              [Acquire(t), TakeChampion(t), install, Unlock(t)]);
    RunStarts(key, s, start, [Acquire(t), TakeChampion(t), install, Unlock(t)],
              SwapSteps(t, candidate, expected, bodyAt, at));
  }

  /** A whole promotion that nobody disturbs installs the candidate, writes its receipt and frees the lock. */
  lemma PromoteAlone(key: int, s: State, t: Tid, candidate: string, expected: Text, bodyAt: int, at: int,
                     id: Json, receiptAt: int)
    requires s.lock.None? && s.At(t).Idle? && FileHolds(s.champion, expected) && |s.installed| == |s.receipts|
    ensures var steps := SwapSteps(t, candidate, expected, bodyAt, at) + AppendSteps(t, id, receiptAt);
      && IsRun(key, s, steps)
      && var s' := End(key, s, steps);
         var hash := ChampionDigest(candidate, expected, bodyAt);
         && s'.At(t).Idle? && s'.lock.None?
         && s'.champion == Some(Champion(candidate, hash, expected, at))
         && |s'.lines| == |s.lines| + 1 && s'.lines[..|s.lines|] == s.lines && s'.lines[|s.lines|].Parsed?
         && var e := s'.lines[|s.lines|].entry;
            && e.event == Str(Plain("promote")) && e.id == id && e.at == Number(receiptAt)
            && e.payload == Record([Str(Plain(candidate)), Str(hash), Str(expected), Number(at)])
  {
    SwapAlone(key, s, t, candidate, expected, bodyAt, at);
    var s1 := End(key, s, SwapSteps(t, candidate, expected, bodyAt, at));
    AppendAlone(key, s1, t, id, receiptAt);
    RunsCompose(key, s, SwapSteps(t, candidate, expected, bodyAt, at), AppendSteps(t, id, receiptAt));
    hide SwapSteps, AppendSteps, End, IsRun;
  }

  /** A promotion with a stale hash that nobody disturbs changes nothing. */
  lemma StaleIsRefused(key: int, s: State, t: Tid, candidate: string, expected: Text)
    requires s.lock.None? && s.At(t).Idle? && !FileHolds(s.champion, expected)
    ensures var steps := [StartPromote(t, candidate, expected), Acquire(t), TakeChampion(t), Refuse(t), Unlock(t)];
      && IsRun(key, s, steps)
      && var s' := End(key, s, steps);
         s'.At(t).Idle? && s'.lock.None? && s'.champion == s.champion && s'.lines == s.lines
  {
    var start := StartPromote(t, candidate, expected);
    var s1 := Apply(key, s, start);
    var s2 := Apply(key, s1, Acquire(t));
    var s3 := Apply(key, s2, TakeChampion(t));
    var s4 := Apply(key, s3, Refuse(t));
    RunStarts(key, s4, Unlock(t), [], [Unlock(t)]);
    RunStarts(key, s3, Refuse(t), [Unlock(t)], [Refuse(t), Unlock(t)]);
    RunStarts(key, s2, TakeChampion(t), [Refuse(t), Unlock(t)], [TakeChampion(t), Refuse(t), Unlock(t)]);
    RunStarts(key, s1, Acquire(t), [TakeChampion(t), Refuse(t), Unlock(t)],
              [Acquire(t), TakeChampion(t), Refuse(t), Unlock(t)]);
    RunStarts(key, s, start, [Acquire(t), TakeChampion(t), Refuse(t), Unlock(t)],
              [start, Acquire(t), TakeChampion(t), Refuse(t), Unlock(t)]);
  }

  /** The promotion lines beyond the first `base` lines. */
  function PromotionLines(lines: seq<Line>, base: nat): set<nat> {
    set k | base <= k < |lines| && IsPromotionLine(lines[k])
  }

  ghost function WrittenReceipts(receipts: seq<Receipt>): set<nat> {
    set n: nat | n < |receipts| && receipts[n].Written? :: receipts[n].line
  }

  /** Every written receipt is a line that holds its champion, each promotion line beyond `base` is one of them. */
  ghost predicate AreMatched(s: State, base: nat) {
    && |s.receipts| == |s.installed|
    && WrittenReceipts(s.receipts) == PromotionLines(s.lines, base) && LinesDistinct(s.receipts)
    && (forall n: nat :: n < |s.receipts| && s.receipts[n].Written? ==>
          s.receipts[n].line < |s.lines| && s.lines[s.receipts[n].line].Parsed?
          && s.lines[s.receipts[n].line].entry.payload == Payload(s.installed[n]))
  }

  /** No thread is at work, and no receipt was lost. */
  ghost predicate IsSettled(s: State) {
    (forall t: Tid :: s.At(t).Idle?) && (forall n: nat :: n < |s.receipts| ==> !s.receipts[n].Lost?)
  }

  /**
   * In every interleaving the promotion lines written are matched one to one with installed champions, each line
   * carrying its champion, so they never outnumber them; and once no thread owes a receipt and none was lost, every
   * champion has its line.
   */
  lemma ReceiptsMatchInstallations(key: int, start: State, steps: seq<Step>)
    requires IsInitial(key, start) && IsRun(key, start, steps)
    ensures var s, base := End(key, start, steps), |start.lines|;
      && AreMatched(s, base)
      && |PromotionLines(s.lines, base)| <= |s.installed|
      && (IsSettled(s) ==> |PromotionLines(s.lines, base)| == |s.installed|)
  {
    InitialInv(key, start);
    RunKeepsInv(key, start, start, steps);
    var s, base := End(key, start, steps), |start.lines|;
    LinesAreReceipts(s, base);
    CountWritten(s.receipts, |s.receipts|);
    assert s.receipts[..|s.receipts|] == s.receipts;
    if IsSettled(s) {
      forall n: nat | n < |s.receipts| ensures s.receipts[n].Written? {
        NobodyOwes(s, n);
      }
    }
  }

  lemma LinesAreReceipts(s: State, base: nat)
    requires ReceiptsKept(base, s)
    ensures WrittenReceipts(s.receipts) == PromotionLines(s.lines, base)
  {
    forall k | k in PromotionLines(s.lines, base) ensures k in WrittenReceipts(s.receipts) {
      assert HasReceipt(s.receipts, k);
      var n: nat :| n < |s.receipts| && s.receipts[n] == Written(k);
    }
  }

  lemma NobodyOwes(s: State, n: nat)
    requires DebtsKept(s) && n < |s.receipts| && forall t: Tid :: s.At(t).Idle?
    ensures !s.receipts[n].Owed?
  {
  }

  ghost predicate LinesDistinct(receipts: seq<Receipt>) {
    forall m: nat, n: nat ::
      m < n < |receipts| && receipts[m].Written? && receipts[n].Written? ==> receipts[m].line != receipts[n].line
  }

  /** Distinct lines: as many as there are written receipts. */
  lemma {:induction false} CountWritten(receipts: seq<Receipt>, k: nat)
    requires k <= |receipts|
    requires LinesDistinct(receipts)
    ensures |WrittenReceipts(receipts[..k])| <= k
    ensures (forall n: nat :: n < k ==> receipts[n].Written?) ==> |WrittenReceipts(receipts[..k])| == k
  {
    hide WrittenReceipts, LinesDistinct;
    if k > 0 {
      CountWritten(receipts, k - 1);
      WrittenStep(receipts, k - 1);
    } else {
      NothingWritten(receipts);
    }
  }

  lemma NothingWritten(receipts: seq<Receipt>)
    ensures WrittenReceipts(receipts[..0]) == {}
  {
  }

  lemma WrittenStep(receipts: seq<Receipt>, k: nat)
    requires k < |receipts|
    requires LinesDistinct(receipts)
    ensures receipts[k].Written? ==>
      WrittenReceipts(receipts[..k + 1]) == WrittenReceipts(receipts[..k]) + {receipts[k].line}
      && receipts[k].line !in WrittenReceipts(receipts[..k])
    ensures !receipts[k].Written? ==> WrittenReceipts(receipts[..k + 1]) == WrittenReceipts(receipts[..k])
  {
    var longer := receipts[..k + 1];
    assert longer[k] == receipts[k] && forall n: nat :: n < k ==> longer[n] == receipts[..k][n];
  }
}
