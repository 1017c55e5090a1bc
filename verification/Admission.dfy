/** The admission limiter: an atomic counter around execution, any number of threads. */
module Admission {
  import opened Sequences

  type Tid = nat

  const TWO_64: nat := 0x1_0000_0000_0000_0000

  /** Where a call stands; `prior` is what the atomic increment returned. */
  datatype Pc = Idle | Entered(prior: nat) | Running | Finished | BackingOut

  /** The threads are the keys of `pcs`. */
  datatype State = State(limit: nat, counter: nat, pcs: map<Tid, Pc>)

  // ---- steps ----

  datatype Step = Enter(t: Tid) | Decide(t: Tid) | Finish(t: Tid) | Leave(t: Tid)

  predicate Enabled(s: State, step: Step) {
    step.t in s.pcs &&
    match step
    case Enter(t) => s.pcs[t].Idle?
    case Decide(t) => s.pcs[t].Entered?
    case Finish(t) => s.pcs[t].Running?
    case Leave(t) => s.pcs[t].Finished? || s.pcs[t].BackingOut?
  }

  /** The counter is a machine word: adding and subtracting wrap around. */
  function Apply(s: State, step: Step): State
    requires Enabled(s, step)
  {
    match step
    case Enter(t) => s.(pcs := s.pcs[t := Entered(s.counter)], counter := (s.counter + 1) % TWO_64)
    case Decide(t) => s.(pcs := s.pcs[t := if s.pcs[t].prior >= s.limit then BackingOut else Running])
    case Finish(t) => s.(pcs := s.pcs[t := Finished])
    case Leave(t) => s.(pcs := s.pcs[t := Idle], counter := (s.counter + TWO_64 - 1) % TWO_64)
  }

  /** No call in flight. There are fewer threads than the counter can count. */
  ghost predicate IsInitial(s: State) {
    s.counter == 0 && |s.pcs| < TWO_64 && forall t :: t in s.pcs ==> s.pcs[t].Idle?
  }

  predicate IsRun(s: State, steps: seq<Step>)
    decreases |steps|
  {
    steps == [] || (Enabled(s, steps[0]) && IsRun(Apply(s, steps[0]), steps[1..]))
  }

  function End(s: State, steps: seq<Step>): State
    requires IsRun(s, steps)
    decreases |steps|
  {
    if steps == [] then s else End(Apply(s, steps[0]), steps[1..])
  }

  // ---- what is counted ----

  function InFlight(s: State): set<Tid> {
    set t | t in s.pcs && !s.pcs[t].Idle?
  }

  function Executing(s: State): set<Tid> {
    set t | t in s.pcs && s.pcs[t].Running?
  }

  predicate IsAdmitted(limit: nat, pc: Pc) {
    pc.Running? || pc.Finished? || (pc.Entered? && pc.prior < limit)
  }

  function Admitted(s: State): set<Tid> {
    set t | t in s.pcs && IsAdmitted(s.limit, s.pcs[t])
  }

  /** Calls that were turned away, or will be, and have not yet given their count back. */
  function TurnedAway(s: State): set<Tid> {
    set t | t in s.pcs && (s.pcs[t].BackingOut? || (s.pcs[t].Entered? && s.pcs[t].prior >= s.limit))
  }

  ghost predicate Inv(s: State) {
    |s.pcs| < TWO_64 && s.counter == |InFlight(s)| && |Admitted(s)| <= s.limit
  }

  lemma FlightFits(s: State)
    ensures |InFlight(s)| <= |s.pcs|
    ensures InFlight(s) < s.pcs.Keys ==> |InFlight(s)| < |s.pcs|
  {
    SubsetIsNoLarger(InFlight(s), s.pcs.Keys);
    assert |s.pcs.Keys| == |s.pcs|;
    if InFlight(s) < s.pcs.Keys {
      var t :| t in s.pcs.Keys && t !in InFlight(s);
      SubsetIsNoLarger(InFlight(s) + {t}, s.pcs.Keys);
    }
  }

  lemma StepKeepsThreads(s: State, step: Step)
    requires Enabled(s, step)
    ensures Apply(s, step).pcs.Keys == s.pcs.Keys && |Apply(s, step).pcs| == |s.pcs| && Apply(s, step).limit == s.limit
  {
    var s' := Apply(s, step);
    assert s'.pcs.Keys == s.pcs.Keys;
    assert |s'.pcs| == |s'.pcs.Keys| && |s.pcs| == |s.pcs.Keys|;
  }

  /** How a step changes who is in flight and who is admitted. */
  lemma StepMoves(s: State, step: Step)
    requires Enabled(s, step)
    ensures var s', t := Apply(s, step), step.t;
      && InFlight(s') == (if step.Enter? then InFlight(s) + {t}
                          else if step.Leave? then InFlight(s) - {t}
                          else InFlight(s))
      && Admitted(s') == (
           if step.Enter? then Admitted(s) + (if s.counter < s.limit then {t} else {})
           else if step.Leave? then Admitted(s) - {t} else Admitted(s))
      && (t in InFlight(s) <==> !step.Enter?)
  {
  }

  lemma AddOrRemove<T>(s: set<T>, x: T)
    ensures x !in s ==> |s + {x}| == |s| + 1
    ensures x in s ==> |s - {x}| == |s| - 1
    ensures |s - {x}| <= |s|
  {
  }

  lemma StepSizes(s: State, step: Step)
    requires Enabled(s, step)
    ensures var s' := Apply(s, step);
      && |InFlight(s')| == |InFlight(s)| + (if step.Enter? then 1 else if step.Leave? then -1 else 0)
      && |Admitted(s')| <= |Admitted(s)| + (if step.Enter? && s.counter < s.limit then 1 else 0)
  {
    StepMoves(s, step);
    hide Apply, InFlight, Admitted, Enabled;
    AddOrRemove(InFlight(s), step.t);
    AddOrRemove(Admitted(s), step.t);
    assert Admitted(s) + {} == Admitted(s);
  }

  lemma StepKeepsInv(s: State, step: Step)
    requires Inv(s) && Enabled(s, step)
    ensures Inv(Apply(s, step))
  {
    StepKeepsThreads(s, step);
    StepSizes(s, step);
    FlightFits(Apply(s, step));
    AdmittedInFlight(s);
    StepCounts(s, step);
    hide Apply, InFlight, Admitted, Enabled;
  }

  lemma AdmittedInFlight(s: State)
    ensures |Admitted(s)| <= |InFlight(s)|
  {
    SubsetIsNoLarger(Admitted(s), InFlight(s));
  }

  lemma StepCounts(s: State, step: Step)
    requires Enabled(s, step)
    ensures Apply(s, step).counter ==
      if step.Enter? then (s.counter + 1) % TWO_64
      else if step.Leave? then (s.counter + TWO_64 - 1) % TWO_64 else s.counter
  {
  }

  lemma {:induction false} RunKeepsInv(s: State, steps: seq<Step>)
    requires Inv(s) && IsRun(s, steps)
    ensures Inv(End(s, steps)) && End(s, steps).limit == s.limit
    decreases |steps|
  {
    if steps != [] {
      StepKeepsInv(s, steps[0]);
      RunKeepsInv(Apply(s, steps[0]), steps[1..]);
    }
  }

  /**
   * In every interleaving the number of threads executing never exceeds the limit, the counter is the number of
   * admitted calls plus those about to back out, and it is zero when no call is in flight.
   */
  lemma LimitIsKept(start: State, steps: seq<Step>)
    requires IsInitial(start) && IsRun(start, steps)
    ensures var s := End(start, steps);
      && |Executing(s)| <= start.limit
      && s.counter == |Admitted(s)| + |TurnedAway(s)|
      && (InFlight(s) == {} ==> s.counter == 0)
  {
    assert InFlight(start) == {} && Admitted(start) == {};
    RunKeepsInv(start, steps);
    var s := End(start, steps);
    SubsetIsNoLarger(Executing(s), Admitted(s));
    assert InFlight(s) == Admitted(s) + TurnedAway(s) && Admitted(s) !! TurnedAway(s);
  }

  /**
   * A call that enters is admitted exactly when fewer calls than the limit are in flight, those backing out included.
   */
  lemma EntryDecides(start: State, steps: seq<Step>, t: Tid)
    requires IsInitial(start) && IsRun(start, steps) && Enabled(End(start, steps), Enter(t))
    ensures var s := End(start, steps);
      t in Admitted(Apply(s, Enter(t))) <==> |InFlight(s)| < start.limit
  {
    assert InFlight(start) == {} && Admitted(start) == {};
    RunKeepsInv(start, steps);
  }

  /** Every call in flight can go on: nobody has to wait for anybody. */
  lemma NobodyIsStuck(s: State, t: Tid)
    requires t in InFlight(s)
    ensures Enabled(s, Decide(t)) || Enabled(s, Finish(t)) || Enabled(s, Leave(t))
  {
  }

  lemma RunStarts(s: State, first: Step, rest: seq<Step>, steps: seq<Step>)
    requires Enabled(s, first) && IsRun(Apply(s, first), rest) && steps == [first] + rest
    ensures IsRun(s, steps) && End(s, steps) == End(Apply(s, first), rest)
  {
    assert steps[0] == first && steps[1..] == rest;
  }

  /** What a call does that nobody disturbs: it executes if it is admitted, and backs out if it is not. */
  function WholeCall(t: Tid, admitted: bool): seq<Step> {
    if admitted then [Enter(t), Decide(t), Finish(t), Leave(t)] else [Enter(t), Decide(t), Leave(t)]
  }

  /** Leaving after entering, with only the caller's place moved in between, restores the state. */
  lemma LeaveUndoesEnter(s: State, s': State, t: Tid, pc: Pc)
    requires Enabled(s, Enter(t)) && s.counter < TWO_64 - 1
    requires s' == s.(pcs := s.pcs[t := pc], counter := s.counter + 1) && (pc.Finished? || pc.BackingOut?)
    ensures Enabled(s', Leave(t)) && Apply(s', Leave(t)) == s
  {
    assert s.pcs[t := pc][t := Idle] == s.pcs;
  }

  lemma AdmittedAlone(s: State, t: Tid)
    requires Enabled(s, Enter(t)) && s.counter < TWO_64 - 1 && s.counter < s.limit
    ensures IsRun(s, WholeCall(t, true)) && End(s, WholeCall(t, true)) == s
  {
    var s1 := Apply(s, Enter(t));
    var s2 := Apply(s1, Decide(t));
    var s3 := Apply(s2, Finish(t));
    assert s3.pcs == s.pcs[t := Finished];
    LeaveUndoesEnter(s, s3, t, Finished);
    RunStarts(s3, Leave(t), [], [Leave(t)]);
    RunStarts(s2, Finish(t), [Leave(t)], [Finish(t), Leave(t)]);
    RunStarts(s1, Decide(t), [Finish(t), Leave(t)], [Decide(t), Finish(t), Leave(t)]);
    RunStarts(s, Enter(t), [Decide(t), Finish(t), Leave(t)], WholeCall(t, true));
  }

  lemma RefusedAlone(s: State, t: Tid)
    requires Enabled(s, Enter(t)) && s.counter < TWO_64 - 1 && s.counter >= s.limit
    ensures IsRun(s, WholeCall(t, false)) && End(s, WholeCall(t, false)) == s
  {
    var s1 := Apply(s, Enter(t));
    var s2 := Apply(s1, Decide(t));
    assert s2.pcs == s.pcs[t := BackingOut];
    LeaveUndoesEnter(s, s2, t, BackingOut);
    RunStarts(s2, Leave(t), [], [Leave(t)]);
    RunStarts(s1, Decide(t), [Leave(t)], [Decide(t), Leave(t)]);
    RunStarts(s, Enter(t), [Decide(t), Leave(t)], WholeCall(t, false));
  }

  /** From every reachable state a whole call is possible, admitted or not, and leaves everything as it was. */
  lemma CallComesAndGoes(start: State, steps: seq<Step>, t: Tid)
    requires IsInitial(start) && IsRun(start, steps) && Enabled(End(start, steps), Enter(t))
    ensures var s := End(start, steps);
      var call := WholeCall(t, |InFlight(s)| < start.limit);
      IsRun(s, call) && End(s, call) == s
  {
    NoneInFlight(start);
    RunKeepsInv(start, steps);
    var s := End(start, steps);
    FlightFits(s);
    assert t in s.pcs.Keys && t !in InFlight(s);
    hide IsRun, End, Apply, WholeCall;
    if s.counter < start.limit {
      AdmittedAlone(s, t);
    } else {
      RefusedAlone(s, t);
    }
  }

  lemma NoneInFlight(start: State)
    requires IsInitial(start)
    ensures Inv(start)
  {
    assert InFlight(start) == {} && Admitted(start) == {};
  }
}
