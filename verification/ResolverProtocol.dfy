/** Every interleaving of callers that follow the order of resolve_after_challenge. */
module ResolverProtocol {
  import opened Results
  import opened ResolverGate

  type Caller = nat

  /** Why a caller gave its slot back. */
  datatype Departure = AfterSuccess | Uncounted | OwingFailure

  /** A caller enters a slot, perhaps records success inside it, leaves, and then perhaps
      records a failure.  A refused caller records nothing; neither does one that was
      cancelled or that failed with a redirect or target rejection. */
  datatype Phase = Inside | Saved | Owing | Gone

  datatype Event =
    | Arrived(caller: Caller, at: real, verdict: Verdict)
    | Succeeded(caller: Caller)
    | Left(caller: Caller, why: Departure)
    | Failed(caller: Caller, at: real)

  type History = seq<Event>

  datatype System = System(gate: Gate, phases: map<Caller, Phase>, clock: real, log: History)

  datatype Step =
    | Tick(now: real)
    | Arrive(caller: Caller)
    | Succeed(caller: Caller)
    | Depart(caller: Caller, why: Departure)
    | Charge(caller: Caller)

  function Start(clock: real): System {
    System(FRESH_GATE, map[], clock, [])
  }

  predicate In(s: System, caller: Caller, phase: Phase) {
    caller in s.phases && s.phases[caller] == phase
  }

  predicate Enabled(s: System, step: Step) {
    match step
    case Tick(now) => s.clock <= now
    case Arrive(caller) => caller !in s.phases
    case Succeed(caller) => In(s, caller, Inside)
    case Depart(caller, why) => In(s, caller, if why.AfterSuccess? then Saved else Inside)
    case Charge(caller) => In(s, caller, Owing)
  }

  function Apply(limits: Limits, s: System, step: Step): System
    requires Enabled(s, step)
  {
    match step
    case Tick(now) => s.(clock := now)
    case Arrive(caller) =>
      var (gate, verdict) := Enter(limits, s.gate, s.clock);
      System(gate, s.phases[caller := if verdict.Admitted? then Inside else Gone], s.clock,
             s.log + [Arrived(caller, s.clock, verdict)])
    case Succeed(caller) =>
      System(RecordSuccess(s.gate), s.phases[caller := Saved], s.clock, s.log + [Succeeded(caller)])
    case Depart(caller, why) =>
      System(Leave(s.gate), s.phases[caller := if why.OwingFailure? then Owing else Gone], s.clock,
             s.log + [Left(caller, why)])
    case Charge(caller) =>
      System(RecordFailure(limits, s.gate, s.clock), s.phases[caller := Gone], s.clock,
             s.log + [Failed(caller, s.clock)])
  }

  predicate IsRun(limits: Limits, s: System, steps: seq<Step>)
    decreases |steps|
  {
    steps == [] || (Enabled(s, steps[0]) && IsRun(limits, Apply(limits, s, steps[0]), steps[1..]))
  }

  function Run(limits: Limits, s: System, steps: seq<Step>): System
    requires IsRun(limits, s, steps)
    decreases |steps|
  {
    if steps == [] then s else Run(limits, Apply(limits, s, steps[0]), steps[1..])
  }

  // ----- What a history says, without looking at the gate -----

  function Count(log: History, wanted: Event -> bool): nat {
    if log == [] then 0
    else Count(log[..|log| - 1], wanted) + if wanted(log[|log| - 1]) then 1 else 0
  }

  predicate IsAdmission(e: Event) { e.Arrived? && e.verdict.Admitted? }
  predicate IsLeaving(e: Event) { e.Left? }
  predicate IsOwingLeaving(e: Event) { e.Left? && e.why.OwingFailure? }
  predicate IsUncountedLeaving(e: Event) { e.Left? && e.why.Uncounted? }
  predicate IsServedLeaving(e: Event) { e.Left? && e.why.AfterSuccess? }
  predicate IsSuccess(e: Event) { e.Succeeded? }
  predicate IsFailure(e: Event) { e.Failed? }

  /** Callers that were admitted and have not left yet. */
  function Occupancy(log: History): int {
    Count(log, IsAdmission) - Count(log, IsLeaving)
  }

  function FailuresSinceSuccess(log: History): nat {
    if log == [] then 0
    else
      var before, last := log[..|log| - 1], log[|log| - 1];
      if last.Succeeded? then 0
      else FailuresSinceSuccess(before) + if last.Failed? then 1 else 0
  }

  function LastFailure(log: History): Option<real> {
    if log == [] then None
    else if log[|log| - 1].Failed? then Some(log[|log| - 1].at)
    else LastFailure(log[..|log| - 1])
  }

  /** The circuit is tripped when enough failures followed the last success. */
  predicate Tripped(limits: Limits, log: History) {
    FailuresSinceSuccess(log) >= limits.failureThreshold
  }

  /** The admission rule, stated over the history alone. */
  function Policy(limits: Limits, log: History, now: real): Verdict {
    if Tripped(limits, log) && LastFailure(log).Some? && now < LastFailure(log).value + limits.cooldown then
      CircuitOpen
    else if Occupancy(log) >= (if Tripped(limits, log) then 1 else limits.maxConcurrency) then
      Busy
    else
      Admitted
  }

  /** A caller admitted while the circuit was tripped: the half-open probe. */
  predicate IsProbe(limits: Limits, log: History, i: nat)
    requires i < |log|
  {
    IsAdmission(log[i]) && Tripped(limits, log[..i])
  }

  /** Event k ends the exclusive period of the probe admitted by event i. */
  predicate EndsProbe(log: History, i: nat, k: nat)
    requires i < |log| && k < |log| && log[i].Arrived?
  {
    i < k && (log[k] == Succeeded(log[i].caller) || (log[k].Left? && log[k].caller == log[i].caller))
  }

  ghost predicate DecidedByPolicy(limits: Limits, log: History) {
    forall i: nat :: i < |log| && log[i].Arrived? ==> log[i].verdict == Policy(limits, log[..i], log[i].at)
  }

  ghost predicate ProbesAreExclusive(limits: Limits, log: History) {
    forall i: nat, j: nat :: i < j < |log| && IsProbe(limits, log, i) && IsAdmission(log[j]) ==>
      exists k: nat :: k < j && EndsProbe(log, i, k)
  }

  ghost predicate ProbePending(limits: Limits, log: History, i: nat)
    requires i < |log|
  {
    IsProbe(limits, log, i) && forall k: nat :: k < |log| ==> !EndsProbe(log, i, k)
  }

  // ----- The inductive invariant -----

  function Within(phases: map<Caller, Phase>): set<Caller> {
    set c | c in phases && (phases[c].Inside? || phases[c].Saved?)
  }

  function InPhase(phases: map<Caller, Phase>, phase: Phase): set<Caller> {
    set c | c in phases && phases[c] == phase
  }

  ghost predicate SlotsMatchHistory(limits: Limits, s: System) {
    && s.gate.active == |Within(s.phases)| == Occupancy(s.log)
    && s.gate.active <= limits.maxConcurrency
  }

  ghost predicate CircuitMatchesHistory(limits: Limits, s: System) {
    && s.gate.failures == FailuresSinceSuccess(s.log)
    && (s.gate.state.Closed? <==> s.gate.failures < limits.failureThreshold)
    && (s.gate.state.Closed? <==> s.gate.openedAt.None?)
    && (s.gate.openedAt.Some? ==> s.gate.openedAt == LastFailure(s.log))
    && (LastFailure(s.log).Some? ==> LastFailure(s.log).value <= s.clock)
    && (s.gate.failures > 0 ==> LastFailure(s.log).Some?)
    && (s.gate.state.HalfOpen? ==> s.clock - s.gate.openedAt.value >= limits.cooldown)
  }

  ghost predicate GateMatchesHistory(limits: Limits, s: System) {
    SlotsMatchHistory(limits, s) && CircuitMatchesHistory(limits, s)
  }

  ghost predicate ProbeInvariant(limits: Limits, s: System) {
    forall i: nat :: i < |s.log| && ProbePending(limits, s.log, i) ==>
      In(s, s.log[i].caller, Inside) && Within(s.phases) == {s.log[i].caller} && !s.gate.state.Closed?
  }

  ghost predicate LogNamesKnownCallers(s: System) {
    forall i: nat :: i < |s.log| ==> s.log[i].caller in s.phases
  }

  ghost predicate Accounts(s: System) {
    && Count(s.log, IsAdmission) == |Within(s.phases)| + Count(s.log, IsLeaving)
    && Count(s.log, IsLeaving)
       == Count(s.log, IsServedLeaving) + Count(s.log, IsUncountedLeaving) + Count(s.log, IsOwingLeaving)
    && Count(s.log, IsOwingLeaving) == |InPhase(s.phases, Owing)| + Count(s.log, IsFailure)
    && Count(s.log, IsSuccess) == |InPhase(s.phases, Saved)| + Count(s.log, IsServedLeaving)
  }

  ghost predicate Invariant(limits: Limits, s: System) {
    && GateMatchesHistory(limits, s)
    && DecidedByPolicy(limits, s.log)
    && ProbesAreExclusive(limits, s.log)
    && ProbeInvariant(limits, s)
    && LogNamesKnownCallers(s)
    && Accounts(s)
  }

  // ----- Preservation -----

  lemma CountAppend(log: History, e: Event, wanted: Event -> bool)
    ensures Count(log + [e], wanted) == Count(log, wanted) + if wanted(e) then 1 else 0
  {
    assert (log + [e])[..|log|] == log;
  }

  lemma CountsAppend(log: History, e: Event)
    ensures Count(log + [e], IsAdmission) == Count(log, IsAdmission) + if IsAdmission(e) then 1 else 0
    ensures Count(log + [e], IsLeaving) == Count(log, IsLeaving) + if IsLeaving(e) then 1 else 0
    ensures Count(log + [e], IsOwingLeaving) == Count(log, IsOwingLeaving) + if IsOwingLeaving(e) then 1 else 0
    ensures Count(log + [e], IsUncountedLeaving)
         == Count(log, IsUncountedLeaving) + if IsUncountedLeaving(e) then 1 else 0
    ensures Count(log + [e], IsServedLeaving) == Count(log, IsServedLeaving) + if IsServedLeaving(e) then 1 else 0
    ensures Count(log + [e], IsSuccess) == Count(log, IsSuccess) + if IsSuccess(e) then 1 else 0
    ensures Count(log + [e], IsFailure) == Count(log, IsFailure) + if IsFailure(e) then 1 else 0
  {
    CountAppend(log, e, IsAdmission);
    CountAppend(log, e, IsLeaving);
    CountAppend(log, e, IsOwingLeaving);
    CountAppend(log, e, IsUncountedLeaving);
    CountAppend(log, e, IsServedLeaving);
    CountAppend(log, e, IsSuccess);
    CountAppend(log, e, IsFailure);
  }

  lemma HistoryAppend(log: History, e: Event)
    ensures FailuresSinceSuccess(log + [e])
         == if e.Succeeded? then 0 else FailuresSinceSuccess(log) + if e.Failed? then 1 else 0
    ensures LastFailure(log + [e]) == if e.Failed? then Some(e.at) else LastFailure(log)
  {
    assert (log + [e])[..|log|] == log;
  }

  /** Moving one caller between phases changes each phase set by that caller only. */
  lemma PhaseMove(phases: map<Caller, Phase>, c: Caller, to: Phase, p: Phase)
    ensures |InPhase(phases[c := to], p)| == |InPhase(phases, p)|
      - (if c in phases && phases[c] == p then 1 else 0) + (if to == p then 1 else 0)
  {
    var before, after := InPhase(phases, p), InPhase(phases[c := to], p);
    if to == p {
      assert after == (before - {c}) + {c};
    } else {
      assert after == before - {c};
    }
  }

  lemma WithinMove(phases: map<Caller, Phase>, c: Caller, to: Phase)
    ensures Within(phases[c := to]) == if to.Inside? || to.Saved? then Within(phases) + {c} else Within(phases) - {c}
    ensures |Within(phases[c := to])| == |Within(phases)|
      - (if c in Within(phases) then 1 else 0) + (if to.Inside? || to.Saved? then 1 else 0)
  {
    var before, after := Within(phases), Within(phases[c := to]);
    if to.Inside? || to.Saved? {
      assert after == before + {c};
      if c in before {
        assert after == before;
      }
    } else {
      assert after == before - {c};
      if c !in before {
        assert after == before;
      }
    }
  }

  lemma PolicyAppend(limits: Limits, log: History, e: Event)
    requires DecidedByPolicy(limits, log)
    requires e.Arrived? ==> e.verdict == Policy(limits, log, e.at)
    ensures DecidedByPolicy(limits, log + [e])
  {
    var longer := log + [e];
    forall i: nat | i < |longer| && longer[i].Arrived?
      ensures longer[i].verdict == Policy(limits, longer[..i], longer[i].at)
    {
      assert longer[..i] == log[..i];
      if i == |log| {
        assert log[..i] == log;
      }
    }
  }

  /** The gate and the policy agree on the next arrival. */
  lemma GateAgreesWithPolicy(limits: Limits, s: System)
    requires ValidLimits(limits) && GateMatchesHistory(limits, s)
    ensures Enter(limits, s.gate, s.clock).1 == Policy(limits, s.log, s.clock)
  {
  }

  lemma SlotsStep(limits: Limits, s: System, step: Step)
    requires SlotsMatchHistory(limits, s) && Enabled(s, step)
    ensures SlotsMatchHistory(limits, Apply(limits, s, step))
  {
    var t := Apply(limits, s, step);
    if !step.Tick? {
      var e := t.log[|s.log|];
      assert t.log == s.log + [e];
      CountAppend(s.log, e, IsAdmission);
      CountAppend(s.log, e, IsLeaving);
      WithinMove(s.phases, step.caller, t.phases[step.caller]);
      assert t.phases == s.phases[step.caller := t.phases[step.caller]];
    }
  }

  lemma CircuitStep(limits: Limits, s: System, step: Step)
    requires ValidLimits(limits) && CircuitMatchesHistory(limits, s) && Enabled(s, step)
    ensures CircuitMatchesHistory(limits, Apply(limits, s, step))
  {
    var t := Apply(limits, s, step);
    if !step.Tick? {
      var e := t.log[|s.log|];
      assert t.log == s.log + [e];
      HistoryAppend(s.log, e);
    }
  }

  lemma AccountsStep(limits: Limits, s: System, step: Step)
    requires Accounts(s) && Enabled(s, step)
    ensures Accounts(Apply(limits, s, step))
  {
    var t := Apply(limits, s, step);
    if !step.Tick? {
      var e := t.log[|s.log|];
      assert t.log == s.log + [e];
      CountsAppend(s.log, e);
      WithinMove(s.phases, step.caller, t.phases[step.caller]);
      PhaseMove(s.phases, step.caller, t.phases[step.caller], Owing);
      PhaseMove(s.phases, step.caller, t.phases[step.caller], Saved);
      assert t.phases == s.phases[step.caller := t.phases[step.caller]];
    }
  }

  /** While a probe is pending the next arrival is refused. */
  lemma ProbeBlocksArrivals(limits: Limits, s: System, i: nat)
    requires ValidLimits(limits) && GateMatchesHistory(limits, s) && ProbeInvariant(limits, s)
    requires i < |s.log| && ProbePending(limits, s.log, i)
    ensures !Policy(limits, s.log, s.clock).Admitted?
  {
    GateAgreesWithPolicy(limits, s);
  }

  lemma PendingBefore(limits: Limits, log: History, e: Event, i: nat)
    requires i < |log| && ProbePending(limits, log + [e], i)
    ensures ProbePending(limits, log, i) && !EndsProbe(log + [e], i, |log|)
  {
    var longer := log + [e];
    assert longer[..i] == log[..i];
    forall k: nat | k < |log|
      ensures !EndsProbe(log, i, k)
    {
      assert !EndsProbe(longer, i, k);
    }
  }

  lemma ProbeStep(limits: Limits, s: System, step: Step)
    requires ValidLimits(limits) && Invariant(limits, s) && Enabled(s, step)
    ensures ProbeInvariant(limits, Apply(limits, s, step))
  {
    var t := Apply(limits, s, step);
    if step.Tick? {
      return;
    }
    var e := t.log[|s.log|];
    assert t.log == s.log + [e];
    GateAgreesWithPolicy(limits, s);
    WithinMove(s.phases, step.caller, t.phases[step.caller]);
    forall i: nat | i < |t.log| && ProbePending(limits, t.log, i)
      ensures In(t, t.log[i].caller, Inside) && Within(t.phases) == {t.log[i].caller} && !t.gate.state.Closed?
    {
      if i < |s.log| {
        PendingBefore(limits, s.log, e, i);
        if e.Arrived? {
          ProbeBlocksArrivals(limits, s, i);
        }
      } else {
        assert t.log[..i] == s.log;
        assert |Within(s.phases)| == 0;
        assert Within(s.phases) == {};
      }
    }
  }

  lemma ExclusiveStep(limits: Limits, s: System, step: Step)
    requires ValidLimits(limits) && Invariant(limits, s) && Enabled(s, step)
    ensures ProbesAreExclusive(limits, Apply(limits, s, step).log)
  {
    var t := Apply(limits, s, step);
    if step.Tick? {
      return;
    }
    var e := t.log[|s.log|];
    assert t.log == s.log + [e];
    forall i: nat, j: nat | i < j < |t.log| && IsProbe(limits, t.log, i) && IsAdmission(t.log[j])
      ensures exists k: nat :: k < j && EndsProbe(t.log, i, k)
    {
      assert t.log[..i] == s.log[..i];
      if j < |s.log| {
        assert IsProbe(limits, s.log, i);
        var k: nat :| k < j && EndsProbe(s.log, i, k);
        assert EndsProbe(t.log, i, k);
      } else {
        GateAgreesWithPolicy(limits, s);
        if ProbePending(limits, s.log, i) {
          ProbeBlocksArrivals(limits, s, i);
        }
        var k: nat :| k < |s.log| && EndsProbe(s.log, i, k);
        assert EndsProbe(t.log, i, k);
      }
    }
  }

  lemma LogStep(limits: Limits, s: System, step: Step)
    requires ValidLimits(limits) && Invariant(limits, s) && Enabled(s, step)
    ensures DecidedByPolicy(limits, Apply(limits, s, step).log)
    ensures LogNamesKnownCallers(Apply(limits, s, step))
  {
    var t := Apply(limits, s, step);
    if !step.Tick? {
      GateAgreesWithPolicy(limits, s);
      assert t.log == s.log + [t.log[|s.log|]];
      PolicyAppend(limits, s.log, t.log[|s.log|]);
    }
  }

  lemma InvariantStep(limits: Limits, s: System, step: Step)
    requires ValidLimits(limits) && Invariant(limits, s) && Enabled(s, step)
    ensures Invariant(limits, Apply(limits, s, step))
  {
    SlotsStep(limits, s, step);
    CircuitStep(limits, s, step);
    AccountsStep(limits, s, step);
    ProbeStep(limits, s, step);
    ExclusiveStep(limits, s, step);
    LogStep(limits, s, step);
  }

  lemma {:induction false} RunKeepsInvariant(limits: Limits, s: System, steps: seq<Step>)
    requires ValidLimits(limits) && Invariant(limits, s) && IsRun(limits, s, steps)
    ensures Invariant(limits, Run(limits, s, steps))
    decreases |steps|
  {
    if steps == [] {
    } else {
      InvariantStep(limits, s, steps[0]);
      RunKeepsInvariant(limits, Apply(limits, s, steps[0]), steps[1..]);
    }
  }

  // ----- Main results, over every run from a fresh gate -----

  ghost predicate Reachable(limits: Limits, s: System) {
    exists start: real, steps: seq<Step> ::
      IsRun(limits, Start(start), steps) && Run(limits, Start(start), steps) == s
  }

  lemma ReachableInvariant(limits: Limits, s: System)
    requires ValidLimits(limits) && Reachable(limits, s)
    ensures Invariant(limits, s)
  {
    var start: real, steps: seq<Step> :|
      IsRun(limits, Start(start), steps) && Run(limits, Start(start), steps) == s;
    assert Within(Start(start).phases) == {};
    assert forall p: Phase :: InPhase(Start(start).phases, p) == {};
    RunKeepsInvariant(limits, Start(start), steps);
  }

  /** The three-state gate decides every arrival exactly as the history rule does,
      and the fields of the gate are functions of the history. */
  lemma GateIsAFunctionOfHistory(limits: Limits, s: System)
    requires ValidLimits(limits) && Reachable(limits, s)
    ensures forall i: nat :: i < |s.log| && s.log[i].Arrived? ==>
      s.log[i].verdict == Policy(limits, s.log[..i], s.log[i].at)
    ensures Enter(limits, s.gate, s.clock).1 == Policy(limits, s.log, s.clock)
    ensures s.gate.failures == FailuresSinceSuccess(s.log)
    ensures s.gate.openedAt == if Tripped(limits, s.log) then LastFailure(s.log) else None
    ensures s.gate.state.Closed? <==> !Tripped(limits, s.log)
    ensures s.gate.active == |Within(s.phases)| == Occupancy(s.log) <= limits.maxConcurrency
  {
    ReachableInvariant(limits, s);
    GateAgreesWithPolicy(limits, s);
  }

  /** Between the admission of a probe and its own success or departure nobody
      else is admitted, whatever late callers record meanwhile. */
  lemma ProbeIsExclusive(limits: Limits, s: System, i: nat, j: nat)
    requires ValidLimits(limits) && Reachable(limits, s)
    requires i < j < |s.log| && IsProbe(limits, s.log, i) && IsAdmission(s.log[j])
    ensures exists k: nat :: k < j && EndsProbe(s.log, i, k)
  {
    ReachableInvariant(limits, s);
  }

  /** A probe that has neither succeeded nor left is alone in the gate, and the
      history refuses everyone else. */
  lemma PendingProbeIsAlone(limits: Limits, s: System, i: nat)
    requires ValidLimits(limits) && Reachable(limits, s)
    requires i < |s.log| && ProbePending(limits, s.log, i)
    ensures In(s, s.log[i].caller, Inside) && Within(s.phases) == {s.log[i].caller}
    ensures !Policy(limits, s.log, s.clock).Admitted?
  {
    ReachableInvariant(limits, s);
    ProbeBlocksArrivals(limits, s, i);
  }

  /** Every admitted caller is inside, owes a failure, or left one of three marks. */
  lemma AdmissionsAreAccountedFor(limits: Limits, s: System)
    requires ValidLimits(limits) && Reachable(limits, s)
    ensures Count(s.log, IsAdmission)
         == |Within(s.phases)| + |InPhase(s.phases, Owing)| + Count(s.log, IsFailure)
            + Count(s.log, IsUncountedLeaving) + Count(s.log, IsServedLeaving)
    ensures Count(s.log, IsSuccess) == |InPhase(s.phases, Saved)| + Count(s.log, IsServedLeaving)
  {
    ReachableInvariant(limits, s);
  }

  lemma {:induction false} NoSuccessCountsAllFailures(log: History)
    requires Count(log, IsSuccess) == 0
    ensures FailuresSinceSuccess(log) == Count(log, IsFailure)
  {
    if log != [] {
      NoSuccessCountsAllFailures(log[..|log| - 1]);
    }
  }

  /** Without a success, at most failureThreshold - 1 + maxConcurrency callers can
      be admitted before the circuit first opens, not counting those that left
      without a mark or still owe one. */
  lemma AdmissionsBeforeFirstOpening(limits: Limits, s: System)
    requires ValidLimits(limits) && Reachable(limits, s)
    requires Count(s.log, IsSuccess) == 0 && !Tripped(limits, s.log)
    ensures Count(s.log, IsAdmission) - |InPhase(s.phases, Owing)| - Count(s.log, IsUncountedLeaving)
         <= limits.failureThreshold - 1 + limits.maxConcurrency
  {
    ReachableInvariant(limits, s);
    NoSuccessCountsAllFailures(s.log);
  }

  /** Once the slots are empty and the cooldown has passed the next caller enters. */
  lemma DrainedGateAdmits(limits: Limits, s: System)
    requires ValidLimits(limits) && Reachable(limits, s)
    requires Within(s.phases) == {}
    requires LastFailure(s.log).Some? ==> LastFailure(s.log).value + limits.cooldown <= s.clock
    ensures Policy(limits, s.log, s.clock).Admitted? && Enter(limits, s.gate, s.clock).1.Admitted?
  {
    ReachableInvariant(limits, s);
    GateAgreesWithPolicy(limits, s);
  }

  lemma {:induction false} RunAppend(limits: Limits, s: System, first: seq<Step>, second: seq<Step>)
    requires IsRun(limits, s, first) && IsRun(limits, Run(limits, s, first), second)
    ensures IsRun(limits, s, first + second)
    ensures Run(limits, s, first + second) == Run(limits, Run(limits, s, first), second)
    decreases |first|
  {
    if first == [] {
      assert first + second == second;
    } else {
      assert (first + second)[1..] == first[1..] + second;
      RunAppend(limits, Apply(limits, s, first[0]), first[1..], second);
    }
  }

  lemma OneStepRun(limits: Limits, s: System, step: Step)
    requires Enabled(s, step)
    ensures IsRun(limits, s, [step]) && Run(limits, s, [step]) == Apply(limits, s, step)
  {
    assert [step][1..] == [];
    assert IsRun(limits, Apply(limits, s, step), []);
  }

  lemma ReachableStep(limits: Limits, s: System, step: Step)
    requires Reachable(limits, s) && Enabled(s, step)
    ensures Reachable(limits, Apply(limits, s, step))
  {
    OneStepRun(limits, s, step);
    ReachableExtends(limits, s, [step]);
  }

  /** Half open does not mean at most one caller inside: callers admitted while the
      circuit was closed can still be there, and one of them can close it again. */
  lemma HalfOpenKeepsLateCallers()
    ensures exists limits: Limits, s: System ::
      && ValidLimits(limits) && Reachable(limits, s)
      && s.gate.state.HalfOpen? && s.gate.active == 2
      && Enabled(s, Succeed(1)) && Apply(limits, s, Succeed(1)).gate.state.Closed?
  {
    var limits := Limits(4, 1, 60.0);
    var s0 := Start(0.0);
    assert IsRun(limits, s0, []) && Run(limits, s0, []) == s0;
    var s1 := Apply(limits, s0, Arrive(0));
    ReachableStep(limits, s0, Arrive(0));
    var s2 := Apply(limits, s1, Arrive(1));
    ReachableStep(limits, s1, Arrive(1));
    var s3 := Apply(limits, s2, Arrive(2));
    ReachableStep(limits, s2, Arrive(2));
    var s4 := Apply(limits, s3, Depart(0, OwingFailure));
    ReachableStep(limits, s3, Depart(0, OwingFailure));
    var s5 := Apply(limits, s4, Charge(0));
    ReachableStep(limits, s4, Charge(0));
    var s6 := Apply(limits, s5, Tick(60.0));
    ReachableStep(limits, s5, Tick(60.0));
    var s7 := Apply(limits, s6, Arrive(3));
    ReachableStep(limits, s6, Arrive(3));
    assert s7.gate.state.HalfOpen? && s7.gate.active == 2;
  }

  /** A drain: every caller inside leaves without recording anything. */
  lemma {:induction false} Drain(limits: Limits, s: System) returns (steps: seq<Step>)
    ensures IsRun(limits, s, steps)
    ensures Within(Run(limits, s, steps).phases) == {}
    ensures Run(limits, s, steps).clock == s.clock
    ensures LastFailure(Run(limits, s, steps).log) == LastFailure(s.log)
    ensures Run(limits, s, steps).phases.Keys == s.phases.Keys
    ensures forall i :: 0 <= i < |steps| ==> steps[i].Depart?
    decreases Within(s.phases)
  {
    if Within(s.phases) == {} {
      steps := [];
    } else {
      var c :| c in Within(s.phases);
      var step := Depart(c, if s.phases[c].Saved? then AfterSuccess else Uncounted);
      var t := Apply(limits, s, step);
      HistoryAppend(s.log, Left(c, step.why));
      WithinMove(s.phases, c, t.phases[c]);
      var rest := Drain(limits, t);
      steps := [step] + rest;
      assert steps[1..] == rest;
    }
  }

  lemma ReachableExtends(limits: Limits, s: System, more: seq<Step>)
    requires Reachable(limits, s) && IsRun(limits, s, more)
    ensures Reachable(limits, Run(limits, s, more))
  {
    var start: real, steps: seq<Step> :|
      IsRun(limits, Start(start), steps) && Run(limits, Start(start), steps) == s;
    RunAppend(limits, Start(start), steps, more);
    assert IsRun(limits, Start(start), steps + more);
  }

  /** No run wedges the gate: from every reachable state some continuation, in
      which nobody records a success, admits a new caller. */
  lemma NeverWedged(limits: Limits, s: System, c: Caller) returns (steps: seq<Step>)
    requires ValidLimits(limits) && Reachable(limits, s) && c !in s.phases
    ensures IsRun(limits, s, steps) && In(Run(limits, s, steps), c, Inside)
    ensures forall i :: 0 <= i < |steps| ==> !steps[i].Succeed?
  {
    var drain := Drain(limits, s);
    var drained := Run(limits, s, drain);
    var ready := if LastFailure(s.log).Some? then LastFailure(s.log).value + limits.cooldown else s.clock;
    var wait := Tick(if ready < s.clock then s.clock else ready);
    var waited := Apply(limits, drained, wait);
    OneStepRun(limits, drained, wait);
    RunAppend(limits, s, drain, [wait]);
    ReachableExtends(limits, s, drain + [wait]);
    DrainedGateAdmits(limits, waited);
    OneStepRun(limits, waited, Arrive(c));
    RunAppend(limits, s, drain + [wait], [Arrive(c)]);
    steps := drain + [wait] + [Arrive(c)];
  }
}
