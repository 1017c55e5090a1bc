/** The budget ledger behind its lock file: any number of processes that pause, resume and show. */
module BudgetLock {
  import opened Options

  type Pid = nat

  const HOUR_MS: nat := 60 * 60 * 1000
  const DAY_MS: nat := 24 * HOUR_MS
  const ACTIVE_STALE_MS: nat := 30 * 60 * 1000
  const LOCK_STALE_MS: nat := 10_000
  const LOCK_WAIT_MS: nat := 2000
  const MANUAL_PAUSE_SENTINEL: nat := 9_000_000_000_000

  // ---- the ledger and its operations ----

  datatype Stamp = Stamp(at: nat, workspace: string)

  datatype Budget = Budget(
    launches: seq<Stamp>, active: seq<Stamp>, pausedUntil: Option<nat>, pauseReason: Option<string>)

  const EMPTY_BUDGET: Budget := Budget([], [], None, None)

  /** The ledger file: missing or blank, not readable as a ledger, or a ledger. */
  datatype File = Missing | Malformed | Holding(budget: Budget)

  function Age(now: nat, at: nat): nat {
    if now >= at then now - at else 0
  }

  /** The stamps younger than the window, in order. */
  function Recent(stamps: seq<Stamp>, now: nat, window: nat): seq<Stamp> {
    if stamps == [] then []
    else
      var rest := Recent(stamps[..|stamps| - 1], now, window);
      var last := stamps[|stamps| - 1];
      if Age(now, last.at) < window then rest + [last] else rest
  }

  /** Dropping old stamps one by one, in place. */
  method Retain(stamps: array<Stamp>, now: nat, window: nat) returns (kept: nat)
    modifies stamps
    ensures kept <= stamps.Length
    ensures stamps[..kept] == Recent(old(stamps[..]), now, window)
  {
    kept := 0;
    ghost var before := stamps[..];
    for k := 0 to stamps.Length
      invariant kept <= k
      invariant stamps[..kept] == Recent(before[..k], now, window)
      invariant forall j :: k <= j < stamps.Length ==> stamps[j] == before[j]
    {
      assert before[..k + 1][..k] == before[..k];
      if Age(now, stamps[k].at) < window {
        stamps[kept] := stamps[k];
        kept := kept + 1;
      }
    }
    assert before[..stamps.Length] == before;
  }

  function Prune(b: Budget, now: nat): Budget {
    b.(launches := Recent(b.launches, now, DAY_MS), active := Recent(b.active, now, ACTIVE_STALE_MS))
  }

  datatype Op = Pause(reason: string) | Resume | Show

  function Update(b: Budget, op: Op): Budget {
    match op
    case Pause(reason) => b.(pausedUntil := Some(MANUAL_PAUSE_SENTINEL), pauseReason := Some(reason))
    case Resume => b.(pausedUntil := None, pauseReason := None)
    case Show => b
  }

  /** One whole operation at a time `now`. */
  function Perform(b: Budget, op: Op, now: nat): Budget {
    Update(Prune(b, now), op)
  }

  function Content(f: File): Budget {
    if f.Holding? then f.budget else EMPTY_BUDGET
  }

  // ---- processes ----

  datatype Lock = Lock(owner: Pid, created: nat)

  /** `Holds` to `Leaving` are the critical section. */
  datatype Pc =
    | Idle
    | Trying(op: Op, deadline: nat)
    | Blocked(op: Op, deadline: nat)
    | TakingOver(op: Op, deadline: nat)
    | Holds(op: Op)
    | Timed(op: Op, now: nat)
    | Loaded(op: Op, now: nat, result: Budget)
    | Staged(op: Op, now: nat, result: Budget)
    | Leaving
    | Crashed

  predicate InSection(pc: Pc) {
    pc.Holds? || pc.Timed? || pc.Loaded? || pc.Staged? || pc.Leaving?
  }

  datatype Commit = Commit(process: Pid, op: Op, now: nat)

  /** `log` records the renames that took effect, in order. */
  datatype State = State(
    time: nat, lock: Option<Lock>, file: File, staging: Option<Budget>, pcs: map<Pid, Pc>, log: seq<Commit>)
  {
    function At(p: Pid): Pc {
      if p in pcs then pcs[p] else Idle
    }

    function Move(p: Pid, pc: Pc): State {
      this.(pcs := pcs[p := pc])
    }
  }

  /** One atomic action of one process, or the clock moving on. */
  datatype Step =
    | Start(p: Pid, op: Op)
    | TryCreate(p: Pid)
    | Inspect(p: Pid)
    | RemoveStale(p: Pid)
    | ReadClock(p: Pid)
    | Load(p: Pid)
    | Stage(p: Pid, written: bool)
    | Rename(p: Pid, renamed: bool)
    | Release(p: Pid)
    | Crash(p: Pid)
    | Tick(elapsed: nat)

  predicate Enabled(s: State, step: Step) {
    match step
    case Start(p, op) => s.At(p).Idle?
    case TryCreate(p) => s.At(p).Trying?
    case Inspect(p) => s.At(p).Blocked?
    case RemoveStale(p) => s.At(p).TakingOver?
    case ReadClock(p) => s.At(p).Holds?
    case Load(p) => s.At(p).Timed?
    case Stage(p, written) => s.At(p).Loaded?
    case Rename(p, renamed) => s.At(p).Staged? && s.staging.Some?
    case Release(p) => s.At(p).Leaving?
    case Crash(p) => !s.At(p).Crashed?
    case Tick(d) => true
  }

  function Apply(s: State, step: Step): State
    requires Enabled(s, step)
  {
    match step
    case Start(p, op) => s.Move(p, Trying(op, s.time + LOCK_WAIT_MS))
    case TryCreate(p) =>
      var op, deadline := s.At(p).op, s.At(p).deadline;
      if s.lock.None? then s.Move(p, Holds(op)).(lock := Some(Lock(p, s.time)))
      else s.Move(p, Blocked(op, deadline))
    case Inspect(p) =>
      var op, deadline := s.At(p).op, s.At(p).deadline;
      if s.lock.Some? && Age(s.time, s.lock.value.created) > LOCK_STALE_MS then s.Move(p, TakingOver(op, deadline))
      else if s.time > deadline then s.Move(p, Idle)
      else s.Move(p, Trying(op, deadline))
    case RemoveStale(p) => s.Move(p, Trying(s.At(p).op, s.At(p).deadline)).(lock := None)
    case ReadClock(p) => s.Move(p, Timed(s.At(p).op, s.time))
    case Load(p) =>
      var op, now := s.At(p).op, s.At(p).now;
      if s.file.Malformed? || op.Show? then s.Move(p, Leaving)
      else s.Move(p, Loaded(op, now, Perform(Content(s.file), op, now)))
    case Stage(p, written) =>
      var pc := s.At(p);
      if written then s.Move(p, Staged(pc.op, pc.now, pc.result)).(staging := Some(pc.result))
      else s.Move(p, Leaving).(staging := None)
    case Rename(p, renamed) =>
      var pc := s.At(p);
      if renamed then
        s.Move(p, Leaving).(
          file := Holding(s.staging.value), staging := None, log := s.log + [Commit(p, pc.op, pc.now)])
      else s.Move(p, Leaving).(staging := None)
    case Release(p) => s.Move(p, Idle).(lock := None)
    case Crash(p) => s.Move(p, Crashed)
    case Tick(d) => s.(time := s.time + d)
  }

  ghost predicate IsInitial(s: State) {
    s.lock.None? && s.pcs == map[] && s.log == [] && s.staging.None?
  }

  /** No lock file gets older than the takeover age. */
  predicate IsFresh(s: State) {
    s.lock.Some? ==> Age(s.time, s.lock.value.created) <= LOCK_STALE_MS
  }

  /** The steps can be taken one after the other. */
  predicate IsRun(s: State, steps: seq<Step>)
    decreases |steps|
  {
    steps == [] || (Enabled(s, steps[0]) && IsRun(Apply(s, steps[0]), steps[1..]))
  }

  /** A run through fresh states only. */
  predicate IsFreshRun(s: State, steps: seq<Step>): (r: bool)
    ensures r ==> IsRun(s, steps)
    decreases |steps|
  {
    IsFresh(s) && (steps == [] || (Enabled(s, steps[0]) && IsFreshRun(Apply(s, steps[0]), steps[1..])))
  }

  function End(s: State, steps: seq<Step>): State
    requires IsRun(s, steps)
    decreases |steps|
  {
    if steps == [] then s else End(Apply(s, steps[0]), steps[1..])
  }

  // ---- the invariant ----

  /** Whoever is in the critical section owns the lock file, and nobody is about to take over. */
  ghost predicate Exclusive(s: State) {
    forall p: Pid ::
      (InSection(s.At(p)) ==> s.lock.Some? && s.lock.value.owner == p) && !s.At(p).TakingOver?
  }

  /** All operations of the log, one after the other. */
  function Replay(b: Budget, log: seq<Commit>): Budget {
    if log == [] then b
    else Perform(Replay(b, log[..|log| - 1]), log[|log| - 1].op, log[|log| - 1].now)
  }

  /** The file is what the log makes of the first file; work in progress is based on it. */
  ghost predicate Sequential(first: File, s: State) {
    && s.file == (if s.log == [] then first else Holding(Replay(Content(first), s.log)))
    && (forall p: Pid :: s.At(p).Loaded? || s.At(p).Staged? ==>
          !s.file.Malformed? && s.At(p).result == Perform(Content(s.file), s.At(p).op, s.At(p).now))
    && (forall p: Pid :: s.At(p).Staged? ==> s.staging == Some(s.At(p).result))
  }

  function LastTime(log: seq<Commit>): nat {
    if log == [] then 0 else log[|log| - 1].now
  }

  /** Commit times do not go backwards, and a process that has read the clock is not behind them. */
  ghost predicate Timely(s: State) {
    && (forall i :: 0 < i < |s.log| ==> s.log[i - 1].now <= s.log[i].now)
    && LastTime(s.log) <= s.time
    && (forall p: Pid :: s.At(p).Timed? || s.At(p).Loaded? || s.At(p).Staged? ==>
          LastTime(s.log) <= s.At(p).now <= s.time)
  }

  ghost predicate WritersOnly(s: State) {
    && (forall p: Pid :: s.At(p).Loaded? || s.At(p).Staged? ==> !s.At(p).op.Show?)
    && (forall i :: 0 <= i < |s.log| ==> !s.log[i].op.Show?)
  }

  ghost predicate Inv(first: File, s: State) {
    Exclusive(s) && Sequential(first, s) && Timely(s) && WritersOnly(s)
  }

  // ---- every step keeps it ----

  lemma OthersStay(s: State, step: Step, q: Pid)
    requires Enabled(s, step) && (step.Tick? || q != step.p)
    ensures Apply(s, step).At(q) == s.At(q)
  {
  }

  /** What the moving process does next. */
  lemma Moved(s: State, step: Step)
    requires Enabled(s, step) && !step.Tick?
    ensures var pc, next, s' := s.At(step.p), Apply(s, step).At(step.p), Apply(s, step);
      && (InSection(next) ==>
            InSection(pc) || (step.TryCreate? && s.lock.None? && s'.lock == Some(Lock(step.p, s.time))))
      && (next.TakingOver? ==> step.Inspect? && s.lock.Some? && Age(s.time, s.lock.value.created) > LOCK_STALE_MS)
      && (next.Timed? ==> step.ReadClock? && next.now == s.time && pc.Holds?)
      && (next.Loaded? ==> step.Load? && !s.file.Malformed? && !pc.op.Show? && pc.Timed?)
      && (next.Loaded? ==> next == Loaded(pc.op, pc.now, Perform(Content(s.file), pc.op, pc.now)))
      && (next.Staged? ==> step.Stage? && step.written && pc.Loaded?)
      && (next.Staged? ==> next == Staged(pc.op, pc.now, pc.result) && s'.staging == Some(pc.result))
  {
  }

  /** What changes the shared files. */
  lemma SharedChanges(s: State, step: Step)
    requires Enabled(s, step)
    ensures var s' := Apply(s, step);
      && (s'.lock != s.lock ==> step.TryCreate? || step.RemoveStale? || step.Release?)
      && (s'.file != s.file || s'.log != s.log ==> step.Rename? && step.renamed)
      && (s'.staging != s.staging ==> step.Stage? || step.Rename?)
      && s'.time >= s.time
  {
  }

  lemma OneInside(s: State, p: Pid, q: Pid)
    requires Exclusive(s) && InSection(s.At(p)) && InSection(s.At(q))
    ensures p == q
  {
  }

  lemma StepKeepsExclusive(s: State, step: Step)
    requires Exclusive(s) && IsFresh(s) && Enabled(s, step)
    ensures Exclusive(Apply(s, step))
  {
    var s' := Apply(s, step);
    forall q: Pid
      ensures (InSection(s'.At(q)) ==> s'.lock.Some? && s'.lock.value.owner == q) && !s'.At(q).TakingOver?
    {
      if step.Tick? || q != step.p {
        OthersStay(s, step, q);
        if InSection(s.At(q)) && step.Release? {
          OneInside(s, step.p, q);
        }
      } else {
        Moved(s, step);
      }
    }
  }

  lemma RenameCommits(s: State, p: Pid)
    requires Enabled(s, Rename(p, true))
    ensures var s', pc := Apply(s, Rename(p, true)), s.At(p);
      s'.file == Holding(s.staging.value) && s'.log == s.log + [Commit(p, pc.op, pc.now)]
  {
  }

  lemma ReplayOneMore(b: Budget, log: seq<Commit>, c: Commit)
    ensures Replay(b, log + [c]) == Perform(Replay(b, log), c.op, c.now)
  {
    assert (log + [c])[..|log|] == log;
  }

  lemma StepKeepsFile(first: File, s: State, step: Step)
    requires Sequential(first, s) && Enabled(s, step)
    ensures var s' := Apply(s, step);
      s'.file == if s'.log == [] then first else Holding(Replay(Content(first), s'.log))
  {
    SharedChanges(s, step);
    if step.Rename? && step.renamed {
      var pc := s.At(step.p);
      RenameCommits(s, step.p);
      ReplayOneMore(Content(first), s.log, Commit(step.p, pc.op, pc.now));
      hide Apply, Enabled, Replay, Perform;
      assert pc.Staged? && s.staging == Some(pc.result);
      assert Content(s.file) == if s.log == [] then Content(first) else Replay(Content(first), s.log);
      NothingReplayed(Content(first));
    } else {
      hide Apply, Enabled, Replay, Perform;
    }
  }

  lemma NothingReplayed(b: Budget)
    ensures Replay(b, []) == b
  {
  }

  lemma StepKeepsWork(first: File, s: State, step: Step, q: Pid)
    requires Exclusive(s) && Sequential(first, s) && Enabled(s, step)
    ensures var s' := Apply(s, step);
      && (s'.At(q).Loaded? || s'.At(q).Staged? ==>
            !s'.file.Malformed? && s'.At(q).result == Perform(Content(s'.file), s'.At(q).op, s'.At(q).now))
      && (s'.At(q).Staged? ==> s'.staging == Some(s'.At(q).result))
  {
    SharedChanges(s, step);
    if step.Tick? || q != step.p {
      OthersStay(s, step, q);
      if InSection(s.At(q)) && (step.Stage? || step.Rename?) {
        OneInside(s, step.p, q);
      }
    } else {
      Moved(s, step);
    }
  }

  lemma StepKeepsSequential(first: File, s: State, step: Step)
    requires Exclusive(s) && Sequential(first, s) && Enabled(s, step)
    ensures Sequential(first, Apply(s, step))
  {
    StepKeepsFile(first, s, step);
    forall q: Pid {
      StepKeepsWork(first, s, step, q);
    }
  }

  lemma StepKeepsTimely(s: State, step: Step)
    requires Exclusive(s) && Timely(s) && Enabled(s, step)
    ensures Timely(Apply(s, step))
  {
    var s' := Apply(s, step);
    SharedChanges(s, step);
    LogGrows(s, step);
    forall q: Pid | s'.At(q).Timed? || s'.At(q).Loaded? || s'.At(q).Staged?
      ensures LastTime(s'.log) <= s'.At(q).now <= s'.time
    {
      if step.Tick? || q != step.p {
        OthersStay(s, step, q);
        if step.Rename? {
          OneInside(s, step.p, q);
        }
      } else {
        Moved(s, step);
      }
    }
  }

  lemma LogGrows(s: State, step: Step)
    requires Timely(s) && Enabled(s, step)
    ensures var s' := Apply(s, step);
      && (forall i :: 0 < i < |s'.log| ==> s'.log[i - 1].now <= s'.log[i].now)
      && LastTime(s'.log) <= s'.time
  {
  }

  lemma StepKeepsWriters(s: State, step: Step)
    requires WritersOnly(s) && Enabled(s, step)
    ensures WritersOnly(Apply(s, step))
  {
    var s' := Apply(s, step);
    forall q: Pid | s'.At(q).Loaded? || s'.At(q).Staged? ensures !s'.At(q).op.Show? {
      if step.Tick? || q != step.p {
        OthersStay(s, step, q);
      } else {
        Moved(s, step);
      }
    }
  }

  lemma {:induction false} RunKeepsInv(first: File, s: State, steps: seq<Step>)
    requires Inv(first, s) && IsFreshRun(s, steps)
    ensures Inv(first, End(s, steps))
    decreases |steps|
  {
    if steps != [] {
      hide Exclusive, Sequential, Timely, WritersOnly, Apply, Enabled, IsFresh;
      StepKeepsExclusive(s, steps[0]);
      StepKeepsSequential(first, s, steps[0]);
      StepKeepsTimely(s, steps[0]);
      StepKeepsWriters(s, steps[0]);
      RunKeepsInv(first, Apply(s, steps[0]), steps[1..]);
    }
  }

  lemma InitialInv(start: State)
    requires IsInitial(start)
    ensures Inv(start.file, start)
  {
    assert forall p: Pid :: start.At(p) == Idle;
  }

  // ---- the results ----

  /** In every run without an overaged lock file at most one process is in the critical section. */
  lemma MutualExclusion(start: State, steps: seq<Step>, p: Pid, q: Pid)
    requires IsInitial(start) && IsFreshRun(start, steps)
    requires InSection(End(start, steps).At(p)) && InSection(End(start, steps).At(q))
    ensures p == q
  {
    InitialInv(start);
    RunKeepsInv(start.file, start, steps);
  }

  /** The ledger is always what the completed operations make of the first one, in the order they were completed. */
  lemma NoUpdateIsLost(start: State, steps: seq<Step>)
    requires IsInitial(start) && IsFreshRun(start, steps)
    ensures var s := End(start, steps);
      s.file == if s.log == [] then start.file else Holding(Replay(Content(start.file), s.log))
  {
    InitialInv(start);
    RunKeepsInv(start.file, start, steps);
  }

  lemma {:induction false} PruneTwice(stamps: seq<Stamp>, t: nat, u: nat, window: nat)
    requires t <= u
    ensures Recent(Recent(stamps, t, window), u, window) == Recent(stamps, u, window)
  {
    if stamps != [] {
      var front, last := stamps[..|stamps| - 1], stamps[|stamps| - 1];
      PruneTwice(front, t, u, window);
      var rest := Recent(front, t, window);
      assert (rest + [last])[..|rest|] == rest;
    }
  }

  /** The kept positions, in order: exactly those of the stamps made less than `window` milliseconds before `now`. */
  ghost predicate KeepsYoung(stamps: seq<Stamp>, kept: seq<Stamp>, positions: seq<nat>, now: nat, window: nat) {
    && |positions| == |kept|
    && (forall i :: 0 <= i < |kept| ==> positions[i] < |stamps| && kept[i] == stamps[positions[i]])
    && (forall i, j :: 0 <= i < j < |positions| ==> positions[i] < positions[j])
    && (forall k: nat :: k < |stamps| ==> (k in positions <==> now < stamps[k].at + window))
  }

  lemma KeepsOld(stamps: seq<Stamp>, kept: seq<Stamp>, positions: seq<nat>, now: nat, window: nat)
    requires stamps != [] && KeepsYoung(stamps[..|stamps| - 1], kept, positions, now, window)
    requires now >= stamps[|stamps| - 1].at + window
    ensures KeepsYoung(stamps, kept, positions, now, window)
  {
    forall k: nat | k < |stamps| ensures k in positions <==> now < stamps[k].at + window {
      assert k < |stamps| - 1 ==> stamps[..|stamps| - 1][k] == stamps[k];
    }
  }

  lemma KeepsOneMore(stamps: seq<Stamp>, kept: seq<Stamp>, positions: seq<nat>, now: nat, window: nat)
    requires stamps != [] && KeepsYoung(stamps[..|stamps| - 1], kept, positions, now, window)
    requires now < stamps[|stamps| - 1].at + window
    ensures KeepsYoung(stamps, kept + [stamps[|stamps| - 1]], positions + [|stamps| - 1], now, window)
  {
    var last: nat := |stamps| - 1;
    var more := positions + [last];
    forall k: nat | k < |stamps| ensures k in more <==> now < stamps[k].at + window {
      assert k in more <==> k in positions || k == last;
      assert k < last ==> stamps[..last][k] == stamps[k];
    }
  }

  lemma {:induction false} RecentKeepsYoung(stamps: seq<Stamp>, now: nat, window: nat) returns (positions: seq<nat>)
    requires window > 0
    ensures KeepsYoung(stamps, Recent(stamps, now, window), positions, now, window)
  {
    positions := [];
    if stamps != [] {
      var last: nat := |stamps| - 1;
      var front := Recent(stamps[..last], now, window);
      positions := RecentKeepsYoung(stamps[..last], now, window);
      hide KeepsYoung;
      if now < stamps[last].at + window {
        KeepsOneMore(stamps, front, positions, now, window);
        positions := positions + [last];
      } else {
        KeepsOld(stamps, front, positions, now, window);
      }
    }
  }

  /** `kept` are the stamps younger than the window, as often and in the order as they occur. */
  ghost predicate AreYoung(stamps: seq<Stamp>, kept: seq<Stamp>, now: nat, window: nat) {
    exists positions :: KeepsYoung(stamps, kept, positions, now, window)
  }

  lemma RecentAreYoung(stamps: seq<Stamp>, now: nat, window: nat)
    requires window > 0
    ensures AreYoung(stamps, Recent(stamps, now, window), now, window)
  {
    var positions := RecentKeepsYoung(stamps, now, window);
  }

  lemma {:induction false} ReplayIsLast(b: Budget, log: seq<Commit>)
    requires log != []
    requires forall i :: 0 < i < |log| ==> log[i - 1].now <= log[i].now
    requires forall i :: 0 <= i < |log| ==> !log[i].op.Show?
    ensures Replay(b, log) == Perform(b, log[|log| - 1].op, log[|log| - 1].now)
  {
    var last := |log| - 1;
    var front := log[..last];
    if front != [] {
      ReplayIsLast(b, front);
      PruneTwice(b.launches, front[last - 1].now, log[last].now, DAY_MS);
      PruneTwice(b.active, front[last - 1].now, log[last].now, ACTIVE_STALE_MS);
    }
  }

  /**
   * Whatever was interleaved, the ledger is what the last completed operation alone makes of the first ledger: after
   * a pause it is paused for that reason until the sentinel, after a resume it is not paused, and its stamps are
   * those of the first ledger that are younger than a day, or for the active ones half an hour, at the last commit.
   */
  lemma LastOperationWins(start: State, steps: seq<Step>)
    requires IsInitial(start) && IsFreshRun(start, steps) && End(start, steps).log != []
    ensures var s := End(start, steps);
      var first := if start.file.Holding? then start.file.budget else Budget([], [], None, None);
      var last := s.log[|s.log| - 1];
      && s.file == Holding(Perform(Content(start.file), last.op, last.now))
      && (match last.op
          case Pause(reason) =>
            s.file.budget.pausedUntil == Some(9_000_000_000_000) && s.file.budget.pauseReason == Some(reason)
          case Resume => s.file.budget.pausedUntil == None && s.file.budget.pauseReason == None
          case Show => false)
      && AreYoung(first.launches, s.file.budget.launches, last.now, 24 * 60 * 60 * 1000)
      && AreYoung(first.active, s.file.budget.active, last.now, 30 * 60 * 1000)
  {
    InitialInv(start);
    RunKeepsInv(start.file, start, steps);
    var s := End(start, steps);
    var last := s.log[|s.log| - 1];
    ReplayIsLast(Content(start.file), s.log);
    RecentAreYoung(Content(start.file).launches, last.now, DAY_MS);
    RecentAreYoung(Content(start.file).active, last.now, ACTIVE_STALE_MS);
    assert WritersOnly(s);
    hide End, IsRun, IsFreshRun, AreYoung, Recent, Replay;
  }

  /** A ledger that cannot be read is never replaced. */
  lemma MalformedStays(start: State, steps: seq<Step>)
    requires IsInitial(start) && IsFreshRun(start, steps) && start.file.Malformed?
    ensures End(start, steps).file.Malformed? && End(start, steps).log == []
  {
    InitialInv(start);
    RunStaysMalformed(start.file, start, steps);
  }

  lemma MalformedIsNotReplaced(first: File, s: State, step: Step)
    requires Sequential(first, s) && s.file.Malformed? && Enabled(s, step)
    ensures !step.Rename?
  {
  }

  lemma {:induction false} RunStaysMalformed(first: File, s: State, steps: seq<Step>)
    requires Inv(first, s) && IsFreshRun(s, steps) && s.file.Malformed? && s.log == []
    ensures End(s, steps).file.Malformed? && End(s, steps).log == []
    decreases |steps|
  {
    if steps != [] {
      MalformedIsNotReplaced(first, s, steps[0]);
      SharedChanges(s, steps[0]);
      StepKeepsExclusive(s, steps[0]);
      StepKeepsSequential(first, s, steps[0]);
      StepKeepsTimely(s, steps[0]);
      StepKeepsWriters(s, steps[0]);
      RunStaysMalformed(first, Apply(s, steps[0]), steps[1..]);
    }
  }

  // ---- what was asked for is what is done ----

  function Elapsed(steps: seq<Step>): nat {
    if steps == [] then 0
    else
      var last := steps[|steps| - 1];
      Elapsed(steps[..|steps| - 1]) + if last.Tick? then last.elapsed else 0
  }

  /** What a process was started for, and when. */
  datatype Request = Request(op: Op, at: nat)

  /** The latest start of a process in a run that begins at the given time. */
  function LatestRequest(began: nat, steps: seq<Step>, p: Pid): Option<Request> {
    if steps == [] then None
    else
      var before, last := steps[..|steps| - 1], steps[|steps| - 1];
      if last.Start? && last.p == p then Some(Request(last.op, began + Elapsed(before)))
      else LatestRequest(began, before, p)
  }

  predicate IsWaiting(pc: Pc) {
    pc.Trying? || pc.Blocked? || pc.TakingOver?
  }

  predicate HasOp(pc: Pc) {
    !pc.Idle? && !pc.Leaving? && !pc.Crashed?
  }

  /** A process has its operation with it, unchanged, until its work is done, and waits two seconds at most. */
  ghost predicate CarriesRequest(pc: Pc, asked: Option<Request>) {
    && (HasOp(pc) ==> asked.Some? && asked.value.op == pc.op)
    && (IsWaiting(pc) ==> asked.Some? && pc.deadline == asked.value.at + 2000)
  }

  lemma StepTakesTime(s: State, steps: seq<Step>, step: Step)
    requires Enabled(s, step)
    ensures Apply(s, step).time == s.time + Elapsed(steps + [step]) - Elapsed(steps)
  {
    assert (steps + [step])[..|steps|] == steps;
  }

  lemma StepCarriesRequest(began: nat, s: State, steps: seq<Step>, step: Step, q: Pid)
    requires Enabled(s, step) && s.time == began + Elapsed(steps)
    requires CarriesRequest(s.At(q), LatestRequest(began, steps, q))
    ensures CarriesRequest(Apply(s, step).At(q), LatestRequest(began, steps + [step], q))
  {
    assert (steps + [step])[..|steps|] == steps;
    if step.Tick? || q != step.p {
      OthersStay(s, step, q);
    }
  }

  lemma {:induction false} RunCarriesRequests(began: nat, s: State, before: seq<Step>, steps: seq<Step>, q: Pid)
    requires IsRun(s, steps) && s.time == began + Elapsed(before)
    requires CarriesRequest(s.At(q), LatestRequest(began, before, q))
    ensures CarriesRequest(End(s, steps).At(q), LatestRequest(began, before + steps, q))
    decreases |steps|
  {
    hide CarriesRequest;
    if steps == [] {
      assert before + steps == before;
    } else {
      StepTakesTime(s, before, steps[0]);
      StepCarriesRequest(began, s, before, steps[0], q);
      RunCarriesRequests(began, Apply(s, steps[0]), before + [steps[0]], steps[1..], q);
      assert before + [steps[0]] + steps[1..] == before + steps;
    }
  }

  lemma WorksOnRequest(start: State, steps: seq<Step>, p: Pid)
    requires IsInitial(start) && IsRun(start, steps)
    ensures CarriesRequest(End(start, steps).At(p), LatestRequest(start.time, steps, p))
  {
    assert start.At(p) == Idle && [] + steps == steps;
    RunCarriesRequests(start.time, start, [], steps, p);
  }

  /** In every run the operation that a process commits is the one that it was started for. */
  lemma CommitsAsAsked(start: State, steps: seq<Step>, p: Pid)
    requires IsInitial(start) && IsRun(start, steps) && Enabled(End(start, steps), Rename(p, true))
    ensures var s, asked := End(start, steps), LatestRequest(start.time, steps, p);
      var s' := Apply(s, Rename(p, true));
      asked.Some? && exists now :: s'.log == s.log + [Commit(p, asked.value.op, now)]
  {
    WorksOnRequest(start, steps, p);
    var s := End(start, steps);
    assert Apply(s, Rename(p, true)).log == s.log + [Commit(p, s.At(p).op, s.At(p).now)];
  }

  /** A process that finds a lock file that is not overaged gives up if and only if it waited more than two seconds. */
  lemma GivesUpIff(start: State, steps: seq<Step>, p: Pid)
    requires IsInitial(start) && IsRun(start, steps) && Enabled(End(start, steps), Inspect(p))
    requires IsFresh(End(start, steps))
    ensures var s, asked := End(start, steps), LatestRequest(start.time, steps, p);
      asked.Some? && (Apply(s, Inspect(p)).At(p).Idle? <==> s.time > asked.value.at + 2000)
  {
    WorksOnRequest(start, steps, p);
  }

  // ---- an operation that nobody disturbs ----

  lemma RunStarts(s: State, first: Step, rest: seq<Step>, steps: seq<Step>)
    requires Enabled(s, first) && IsRun(Apply(s, first), rest) && steps == [first] + rest
    ensures IsRun(s, steps) && End(s, steps) == End(Apply(s, first), rest)
  {
    assert steps[0] == first && steps[1..] == rest;
  }

  /** Takes the lock, reads the clock and the ledger, writes it back through a temporary file, and frees the lock. */
  function WholeOperation(p: Pid, op: Op): seq<Step> {
    [Start(p, op), TryCreate(p), ReadClock(p), Load(p), Stage(p, true), Rename(p, true), Release(p)]
  }

  /** From any state with the lock free a pause or resume that nobody disturbs gets through. */
  lemma AloneGetsThrough(s: State, p: Pid, op: Op)
    requires s.lock.None? && s.At(p).Idle? && !s.file.Malformed? && !op.Show?
    ensures IsRun(s, WholeOperation(p, op))
    ensures var s' := End(s, WholeOperation(p, op));
      && s'.At(p).Idle? && s'.lock.None? && s'.staging.None?
      && s'.file == Holding(Perform(Content(s.file), op, s.time)) && s'.log == s.log + [Commit(p, op, s.time)]
  {
    hide Perform, Content;
    var s1 := Apply(s, Start(p, op));
    var s2 := Apply(s1, TryCreate(p));
    var s3 := Apply(s2, ReadClock(p));
    GetsLoaded(s3, p);
    RunStarts(s2, ReadClock(p), [Load(p), Stage(p, true), Rename(p, true), Release(p)],
              [ReadClock(p), Load(p), Stage(p, true), Rename(p, true), Release(p)]);
    RunStarts(s1, TryCreate(p), [ReadClock(p), Load(p), Stage(p, true), Rename(p, true), Release(p)],
              [TryCreate(p), ReadClock(p), Load(p), Stage(p, true), Rename(p, true), Release(p)]);
    RunStarts(s, Start(p, op), [TryCreate(p), ReadClock(p), Load(p), Stage(p, true), Rename(p, true), Release(p)],
              WholeOperation(p, op));
  }

  lemma GetsLoaded(s: State, p: Pid)
    requires s.At(p).Timed? && !s.file.Malformed? && !s.At(p).op.Show?
    ensures var steps, pc := [Load(p), Stage(p, true), Rename(p, true), Release(p)], s.At(p);
      && IsRun(s, steps)
      && var s' := End(s, steps);
         && s'.At(p).Idle? && s'.lock.None? && s'.staging.None?
         && s'.file == Holding(Perform(Content(s.file), pc.op, pc.now))
         && s'.log == s.log + [Commit(p, pc.op, pc.now)]
  {
    hide Perform, Content;
    var s1 := Apply(s, Load(p));
    var s2 := Apply(s1, Stage(p, true));
    var s3 := Apply(s2, Rename(p, true));
    RunStarts(s3, Release(p), [], [Release(p)]);
    RunStarts(s2, Rename(p, true), [Release(p)], [Rename(p, true), Release(p)]);
    RunStarts(s1, Stage(p, true), [Rename(p, true), Release(p)], [Stage(p, true), Rename(p, true), Release(p)]);
    RunStarts(s, Load(p), [Stage(p, true), Rename(p, true), Release(p)],
              [Load(p), Stage(p, true), Rename(p, true), Release(p)]);
  }

  // ---- why the age matters ----

  predicate IsTickFree(steps: seq<Step>) {
    forall i :: 0 <= i < |steps| ==> !steps[i].Tick?
  }

  /** What a process does to get in although another one holds an overaged lock file. */
  function WayIn(pc: Pc, q: Pid, op: Op): seq<Step> {
    var takeOver := [Inspect(q), RemoveStale(q), TryCreate(q)];
    match pc
    case Idle => [Start(q, op), TryCreate(q)] + takeOver
    case Trying(_, _) => [TryCreate(q)] + takeOver
    case _ => takeOver
  }

  /** A process that waits takes over an overaged lock file, and its owner stays inside. */
  lemma TakesOver(s: State, p: Pid, q: Pid)
    requires p != q && InSection(s.At(p)) && s.At(q).Blocked? && s.lock.Some? && !IsFresh(s)
    ensures var steps := [Inspect(q), RemoveStale(q), TryCreate(q)];
      && IsRun(s, steps) && IsTickFree(steps)
      && End(s, steps).At(q).Holds? && End(s, steps).At(p) == s.At(p)
  {
    var s1 := Apply(s, Inspect(q));
    assert s1.At(q).TakingOver? && s1.At(p) == s.At(p);
    var s2 := Apply(s1, RemoveStale(q));
    assert s2.At(q).Trying? && s2.lock.None? && s2.At(p) == s.At(p);
    var s3 := Apply(s2, TryCreate(q));
    assert s3.At(q).Holds? && s3.At(p) == s.At(p);
    RunStarts(s2, TryCreate(q), [], [TryCreate(q)]);
    RunStarts(s1, RemoveStale(q), [TryCreate(q)], [RemoveStale(q), TryCreate(q)]);
    RunStarts(s, Inspect(q), [RemoveStale(q), TryCreate(q)], [Inspect(q), RemoveStale(q), TryCreate(q)]);
  }

  /** An overaged lock file lets in any other process that lives, without the clock moving on. */
  lemma OveragedLockAdmits(s: State, p: Pid, q: Pid, op: Op)
    requires Exclusive(s) && p != q && InSection(s.At(p)) && !s.At(q).Crashed? && !IsFresh(s)
    ensures var steps := WayIn(s.At(q), q, op);
      && IsRun(s, steps) && IsTickFree(steps)
      && InSection(End(s, steps).At(p)) && InSection(End(s, steps).At(q))
  {
    var takeOver := [Inspect(q), RemoveStale(q), TryCreate(q)];
    match s.At(q)
    case Idle =>
      var s1 := Apply(s, Start(q, op));
      var s2 := Apply(s1, TryCreate(q));
      assert s2.At(q).Blocked? && s2.At(p) == s.At(p);
      TakesOver(s2, p, q);
      RunStarts(s1, TryCreate(q), takeOver, [TryCreate(q)] + takeOver);
      RunStarts(s, Start(q, op), [TryCreate(q)] + takeOver, WayIn(Idle, q, op));
    case Trying(_, _) =>
      var s1 := Apply(s, TryCreate(q));
      assert s1.At(q).Blocked? && s1.At(p) == s.At(p);
      TakesOver(s1, p, q);
      RunStarts(s, TryCreate(q), takeOver, [TryCreate(q)] + takeOver);
    case Blocked(_, _) =>
      TakesOver(s, p, q);
    case _ =>
  }

  /** While the clock stands still no lock file becomes overaged, so nobody gets in beside the owner. */
  lemma {:induction false} FreshLockAdmitsOne(s: State, steps: seq<Step>, p: Pid, q: Pid)
    requires Exclusive(s) && IsFresh(s) && IsRun(s, steps) && IsTickFree(steps)
    requires InSection(End(s, steps).At(p)) && InSection(End(s, steps).At(q))
    ensures p == q
    decreases |steps|
  {
    if steps == [] {
      OneInside(s, p, q);
    } else {
      hide Exclusive;
      StepKeepsExclusive(s, steps[0]);
      StepKeepsFresh(s, steps[0]);
      FreshLockAdmitsOne(Apply(s, steps[0]), steps[1..], p, q);
    }
  }

  lemma StepKeepsFresh(s: State, step: Step)
    requires IsFresh(s) && Enabled(s, step) && !step.Tick?
    ensures IsFresh(Apply(s, step))
  {
  }

  ghost predicate CanJoin(s: State, p: Pid, q: Pid) {
    exists steps ::
      IsRun(s, steps) && IsTickFree(steps) && InSection(End(s, steps).At(p)) && InSection(End(s, steps).At(q))
  }

  /**
   * The age is the exact condition: from a state in which p alone is inside, another live process can get in beside
   * it, without the clock moving on, if and only if the lock file is older than the takeover age.
   */
  lemma CanJoinIffOveraged(s: State, p: Pid, q: Pid)
    requires Exclusive(s) && p != q && InSection(s.At(p)) && !s.At(q).Crashed?
    ensures CanJoin(s, p, q) <==> s.lock.Some? && s.time > s.lock.value.created + 10_000
  {
    if IsFresh(s) {
      forall steps | IsRun(s, steps) && IsTickFree(steps)
        ensures !(InSection(End(s, steps).At(p)) && InSection(End(s, steps).At(q)))
      {
        if InSection(End(s, steps).At(p)) && InSection(End(s, steps).At(q)) {
          FreshLockAdmitsOne(s, steps, p, q);
        }
      }
    } else {
      OveragedLockAdmits(s, p, q, Show);
    }
  }

  /** A process creates the lock file, another one is kept out, and the owner takes longer than the takeover age. */
  function SlowOwner(p: Pid, q: Pid, op: Op): seq<Step> {
    [Start(p, op), Start(q, op), TryCreate(p), TryCreate(q), Tick(10_001)]
  }

  /** That is how it goes wrong from any initial state: two processes end up inside. */
  lemma SlowOwnerIsJoined(start: State, p: Pid, q: Pid, op: Op)
    requires IsInitial(start) && p != q
    ensures var steps := SlowOwner(p, q, op);
      && IsRun(start, steps)
      && var s := End(start, steps);
         && Exclusive(s) && !IsFresh(s) && s.At(q).Blocked? && InSection(s.At(p))
         && CanJoin(s, p, q)
  {
    SlowOwnerRuns(start, p, q, op);
    CanJoinIffOveraged(End(start, SlowOwner(p, q, op)), p, q);
  }

  lemma SlowOwnerRuns(start: State, p: Pid, q: Pid, op: Op)
    requires IsInitial(start) && p != q
    ensures var steps := SlowOwner(p, q, op);
      && IsRun(start, steps)
      && var s := End(start, steps);
         Exclusive(s) && !IsFresh(s) && s.At(q).Blocked? && InSection(s.At(p))
  {
    var tick := Tick(10_001);
    var s1 := Apply(start, Start(p, op));
    var s2 := Apply(s1, Start(q, op));
    var s3 := Apply(s2, TryCreate(p));
    var s4 := Apply(s3, TryCreate(q));
    RunStarts(s4, tick, [], [tick]);
    RunStarts(s3, TryCreate(q), [tick], [TryCreate(q), tick]);
    RunStarts(s2, TryCreate(p), [TryCreate(q), tick], [TryCreate(p), TryCreate(q), tick]);
    RunStarts(s1, Start(q, op), [TryCreate(p), TryCreate(q), tick], [Start(q, op), TryCreate(p), TryCreate(q), tick]);
    RunStarts(start, Start(p, op), [Start(q, op), TryCreate(p), TryCreate(q), tick], SlowOwner(p, q, op));
    InitialInv(start);
    StepKeepsExclusive(start, Start(p, op));
    StepKeepsExclusive(s1, Start(q, op));
    StepKeepsExclusive(s2, TryCreate(p));
    StepKeepsExclusive(s3, TryCreate(q));
    StepKeepsExclusive(s4, tick);
  }
}
