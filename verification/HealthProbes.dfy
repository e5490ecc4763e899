/** Concurrent source-health probes: a fetch within its budget, then a session close
    within a budget fixed once, whose task may never end and may ignore cancellation. */
module HealthProbes {
  import opened Results

  const FETCH_BUDGET := 5.0
  const CLOSE_BUDGET := 1.0

  type Id = nat

  /** How the fetch ended; Crashed is any error the probe does not handle itself. */
  datatype Fetch =
    | Fetched | Challenged | RateLimited | SourceFailed | ResolverFailed | TimedOut | FetchCancelled | Crashed

  datatype Status = Healthy | ChallengeRequired | RateLimitedSource | Unavailable

  /** How the close task ended, when it did. */
  datatype Ending = Clean | Raised | RaisedTimeout | EndedCancelled

  datatype Task = NotStarted | Running | Finished(ending: Ending)

  datatype Outcome = Report(status: Status) | Cancellation | CloseError | FetchError

  /** Closing is the first shielded wait; Draining the second, after a cancellation. */
  datatype Phase = Fetching | Closing | Draining | Ended(outcome: Outcome, at: real)

  datatype Probe = Probe(
    started: real,
    phase: Phase,
    fetch: Option<Fetch>,
    closeStarted: real,
    task: Task,
    cancels: nat,
    cancelRequested: bool,
    consumed: bool)

  datatype System = System(clock: real, probes: map<Id, Probe>, detached: set<Id>)

  datatype Step =
    | Tick(now: real)
    | Begin(id: Id)
    | FetchEnds(id: Id, fetch: Fetch)
    | FetchTimesOut(id: Id)
    | Cancel(id: Id)
    | TaskFinishes(id: Id, ending: Ending)
    | Resume(id: Id)
    | CloseTimesOut(id: Id)
    | Consume(id: Id)

  function StatusOf(fetch: Fetch): Status {
    match fetch
    case Fetched => Healthy
    case Challenged => ChallengeRequired
    case RateLimited => RateLimitedSource
    case _ => Unavailable
  }

  function Deadline(probe: Probe): real {
    if probe.phase.Fetching? then probe.started + FETCH_BUDGET else probe.closeStarted + CLOSE_BUDGET
  }

  predicate Live(s: System, id: Id) {
    id in s.probes && !s.probes[id].phase.Ended?
  }

  predicate InPhase(s: System, id: Id, phase: Phase) {
    id in s.probes && s.probes[id].phase == phase
  }

  predicate Waiting(s: System, id: Id) {
    InPhase(s, id, Closing) || InPhase(s, id, Draining)
  }

  predicate Enabled(s: System, step: Step) {
    match step
    // A due timer runs before time moves past it.
    case Tick(now) => s.clock <= now && forall id :: id in s.probes && Live(s, id) ==> now <= Deadline(s.probes[id])
    case Begin(id) => id !in s.probes
    case FetchEnds(id, fetch) => InPhase(s, id, Fetching) && !fetch.TimedOut? && !fetch.FetchCancelled?
    case FetchTimesOut(id) => InPhase(s, id, Fetching) && s.clock == Deadline(s.probes[id])
    case Cancel(id) => Live(s, id)
    case TaskFinishes(id, _) => id in s.probes && s.probes[id].task.Running?
    case Resume(id) => Waiting(s, id) && s.probes[id].task.Finished?
    case CloseTimesOut(id) => Waiting(s, id) && s.clock == Deadline(s.probes[id])
    case Consume(id) => id in s.detached && id in s.probes && s.probes[id].task.Finished?
  }

  /** The finally block of a probe: start the close task and fix its deadline. */
  function StartClose(s: System, id: Id, fetch: Fetch): System
    requires id in s.probes
  {
    var probe := s.probes[id].(phase := Closing, fetch := Some(fetch), closeStarted := s.clock, task := Running);
    s.(probes := s.probes[id := probe])
  }

  function End(s: System, id: Id, outcome: Outcome): System
    requires id in s.probes
  {
    s.(probes := s.probes[id := s.probes[id].(phase := Ended(outcome, s.clock))])
  }

  /** Hold the close task, request its cancellation and stop waiting for it. */
  function Detach(s: System, id: Id): System
    requires id in s.probes
  {
    s.(probes := s.probes[id := s.probes[id].(cancelRequested := true)], detached := s.detached + {id})
  }

  /** A probe whose fetch was cancelled or crashed re-raises whatever the close returns. */
  function Conclude(probe: Probe, status: Status): Outcome {
    if probe.fetch == Some(FetchCancelled) || probe.phase.Draining? then Cancellation
    else if probe.fetch == Some(Crashed) then FetchError
    else Report(status)
  }

  function FetchStatus(probe: Probe): Status {
    if probe.fetch.Some? then StatusOf(probe.fetch.value) else Unavailable
  }

  function Apply(s: System, step: Step): System
    requires Enabled(s, step)
  {
    match step
    case Tick(now) => s.(clock := now)
    case Begin(id) =>
      s.(probes := s.probes[id := Probe(s.clock, Fetching, None, s.clock, NotStarted, 0, false, false)])
    case FetchEnds(id, fetch) => StartClose(s, id, fetch)
    case FetchTimesOut(id) => StartClose(s, id, TimedOut)
    case Cancel(id) =>
      var probe := s.probes[id];
      if probe.phase.Fetching? then StartClose(s, id, FetchCancelled)
      else
        var marked := s.(probes := s.probes[id := probe.(cancels := probe.cancels + 1)]);
        if probe.phase.Closing? then
          marked.(probes := marked.probes[id := marked.probes[id].(phase := Draining)])
        else
          End(marked, id, Cancellation)
    case TaskFinishes(id, ending) =>
      s.(probes := s.probes[id := s.probes[id].(task := Finished(ending))])
    case Resume(id) =>
      var probe := s.probes[id];
      (match probe.task.ending
       case Clean => End(s, id, Conclude(probe, FetchStatus(probe)))
       case Raised => End(s, id, CloseError)
       case RaisedTimeout => End(Detach(s, id), id, Conclude(probe, Unavailable))
       // A first wait cancelled by the task itself waits once more, which ends at once.
       case EndedCancelled => End(s, id, Cancellation))
    case CloseTimesOut(id) => End(Detach(s, id), id, Conclude(s.probes[id], Unavailable))
    case Consume(id) =>
      s.(probes := s.probes[id := s.probes[id].(consumed := true)], detached := s.detached - {id})
  }

  function Start(clock: real): System {
    System(clock, map[], {})
  }

  predicate IsRun(s: System, steps: seq<Step>)
    decreases |steps|
  {
    steps == [] || (Enabled(s, steps[0]) && IsRun(Apply(s, steps[0]), steps[1..]))
  }

  function Run(s: System, steps: seq<Step>): System
    requires IsRun(s, steps)
    decreases |steps|
  {
    if steps == [] then s else Run(Apply(s, steps[0]), steps[1..])
  }

  ghost predicate Reachable(s: System) {
    exists clock: real, steps: seq<Step> :: IsRun(Start(clock), steps) && Run(Start(clock), steps) == s
  }

  // ----- The inductive invariant -----

  ghost predicate Timely(clock: real, probe: Probe) {
    && probe.started <= clock
    && (!probe.phase.Ended? ==> clock <= Deadline(probe))
    && (!probe.phase.Fetching? ==> probe.started <= probe.closeStarted <= probe.started + FETCH_BUDGET)
    && (!probe.phase.Fetching? ==> probe.closeStarted <= clock)
    && (probe.phase.Ended? ==> probe.closeStarted <= probe.phase.at <= probe.closeStarted + CLOSE_BUDGET)
    && (probe.fetch == Some(TimedOut) ==> probe.closeStarted == probe.started + FETCH_BUDGET)
    && (probe.cancelRequested && probe.phase.Ended? && probe.task != Finished(RaisedTimeout) ==>
          probe.phase.at == probe.closeStarted + CLOSE_BUDGET)
  }

  ghost predicate Tidy(probe: Probe) {
    && (probe.phase.Fetching? <==> probe.task.NotStarted?)
    && (probe.phase.Fetching? <==> probe.fetch.None?)
    && (probe.phase.Fetching? || probe.phase.Closing? ==> probe.cancels == 0)
    && (probe.phase.Draining? ==> probe.cancels == 1)
    && (!probe.phase.Ended? ==> !probe.cancelRequested)
    && (probe.phase.Ended? && probe.task.Running? ==> (probe.cancelRequested <==> probe.cancels < 2))
    && (probe.cancels <= 2)
    && (probe.consumed ==> probe.cancelRequested && probe.task.Finished?)
  }

  /** How a probe ends: two cancellations during the close, or one before it returns, are
      re-raised; an error of the close is raised; otherwise a cancelled fetch is re-raised, a
      crashed one raises its error, and any other reports its status, or "unavailable" when
      the close was given up. */
  ghost predicate EndsAs(fetch: Fetch, cancels: nat, givenUp: bool, task: Task, outcome: Outcome) {
    && (cancels > 1 ==> outcome == Cancellation)
    && (cancels <= 1 && !givenUp ==> task.Finished? && !task.ending.RaisedTimeout?)
    && (cancels <= 1 && !givenUp && task == Finished(Raised) ==> outcome == CloseError)
    && (cancels <= 1 && !givenUp && task == Finished(EndedCancelled) ==> outcome == Cancellation)
    && (cancels == 1 && (givenUp || task == Finished(Clean)) ==> outcome == Cancellation)
    && (cancels == 0 && (givenUp || task == Finished(Clean)) ==>
          && (fetch.FetchCancelled? ==> outcome == Cancellation)
          && (fetch.Crashed? ==> outcome == FetchError)
          && (!fetch.FetchCancelled? && !fetch.Crashed? && givenUp ==> outcome == Report(Unavailable))
          && (fetch.Fetched? && !givenUp ==> outcome == Report(Healthy))
          && (fetch.Challenged? && !givenUp ==> outcome == Report(ChallengeRequired))
          && (fetch.RateLimited? && !givenUp ==> outcome == Report(RateLimitedSource))
          && ((fetch.SourceFailed? || fetch.ResolverFailed? || fetch.TimedOut?) && !givenUp ==>
                outcome == Report(Unavailable)))
  }

  ghost predicate Truthful(probe: Probe) {
    probe.phase.Ended? ==>
      && probe.fetch.Some?
      && EndsAs(probe.fetch.value, probe.cancels, probe.cancelRequested, probe.task, probe.phase.outcome)
  }

  ghost predicate Invariant(s: System) {
    && s.detached <= s.probes.Keys
    && (forall id :: id in s.probes ==> Timely(s.clock, s.probes[id]))
    && (forall id :: id in s.probes ==> Tidy(s.probes[id]))
    && (forall id :: id in s.probes ==> Truthful(s.probes[id]))
    && (forall id :: id in s.probes ==>
          (id in s.detached <==> s.probes[id].cancelRequested && !s.probes[id].consumed))
  }

  /** One step keeps the invariant of the probe it moves and touches no other. */
  lemma StepMovesOneProbe(s: System, step: Step)
    requires Enabled(s, step) && !step.Tick?
    ensures Apply(s, step).clock == s.clock
    ensures Apply(s, step).probes.Keys == s.probes.Keys + {step.id}
    ensures forall id :: id in s.probes && id != step.id ==>
      Apply(s, step).probes[id] == s.probes[id] && (id in Apply(s, step).detached <==> id in s.detached)
  {
  }

  lemma StepKeepsProbe(s: System, step: Step)
    requires Invariant(s) && Enabled(s, step) && !step.Tick?
    ensures var t := Apply(s, step);
      && Timely(t.clock, t.probes[step.id]) && Tidy(t.probes[step.id]) && Truthful(t.probes[step.id])
      && (step.id in t.detached <==> t.probes[step.id].cancelRequested && !t.probes[step.id].consumed)
  {
    if step.Begin? {
    } else {
      assert Timely(s.clock, s.probes[step.id]) && Tidy(s.probes[step.id]) && Truthful(s.probes[step.id]);
    }
  }

  lemma StepKeepsInvariant(s: System, step: Step)
    requires Invariant(s) && Enabled(s, step)
    ensures Invariant(Apply(s, step))
  {
    if step.Tick? {
      TickKeepsInvariant(s, step.now);
    } else {
      StepMovesOneProbe(s, step);
      StepKeepsProbe(s, step);
      MovedKeepsInvariant(s, step);
    }
  }

  lemma TickKeepsInvariant(s: System, now: real)
    requires Invariant(s) && Enabled(s, Tick(now))
    ensures Invariant(Apply(s, Tick(now)))
  {
    hide Tidy, Truthful;
  }

  lemma MovedKeepsInvariant(s: System, step: Step)
    requires Invariant(s) && Enabled(s, step) && !step.Tick?
    requires var t := Apply(s, step);
      && t.clock == s.clock && t.probes.Keys == s.probes.Keys + {step.id} && t.detached <= t.probes.Keys
      && (forall id :: id in s.probes && id != step.id ==>
            t.probes[id] == s.probes[id] && (id in t.detached <==> id in s.detached))
      && Timely(t.clock, t.probes[step.id]) && Tidy(t.probes[step.id]) && Truthful(t.probes[step.id])
      && (step.id in t.detached <==> t.probes[step.id].cancelRequested && !t.probes[step.id].consumed)
    ensures Invariant(Apply(s, step))
  {
    hide Apply, Enabled, Timely, Tidy, Truthful;
  }

  lemma {:induction false} RunKeepsInvariant(s: System, steps: seq<Step>)
    requires Invariant(s) && IsRun(s, steps)
    ensures Invariant(Run(s, steps))
    decreases |steps|
  {
    if steps != [] {
      StepKeepsInvariant(s, steps[0]);
      RunKeepsInvariant(Apply(s, steps[0]), steps[1..]);
    }
  }

  lemma ReachableInvariant(s: System)
    requires Reachable(s)
    ensures Invariant(s)
  {
    var clock: real, steps: seq<Step> :| IsRun(Start(clock), steps) && Run(Start(clock), steps) == s;
    RunKeepsInvariant(Start(clock), steps);
  }

  // ----- Main results -----

  /** Every probe ends within its fetch budget plus one close budget, counted from the
      moment the close began and never extended by a cancellation. */
  lemma ProbesEndInTime(s: System, id: Id)
    requires Reachable(s) && id in s.probes
    ensures var probe := s.probes[id];
      && (!probe.phase.Ended? ==> s.clock <= probe.started + 6.0)
      && (probe.phase.Ended? ==> probe.phase.at <= probe.started + 6.0)
      && (!probe.phase.Fetching? ==> probe.closeStarted <= probe.started + 5.0)
      && (probe.phase.Ended? ==> probe.phase.at <= probe.closeStarted + 1.0)
  {
    ReachableInvariant(s);
    assert Timely(s.clock, s.probes[id]);
  }

  /** When a probe has ended, its close task has finished or has been cancelled and is
      held, unless a second cancellation arrived during the same close. */
  lemma UnfinishedTasksAreHeldExactly(s: System, id: Id)
    requires Reachable(s) && id in s.probes && s.probes[id].phase.Ended?
    ensures !s.probes[id].task.NotStarted?
    ensures s.probes[id].task.Running? ==>
      (id in s.detached && s.probes[id].cancelRequested <==> s.probes[id].cancels < 2)
    ensures s.probes[id].cancels <= 2
  {
    ReachableInvariant(s);
    assert Tidy(s.probes[id]);
  }

  /** Apart from finished tasks whose callback has yet to run, the held tasks are
      exactly the cancelled, unfinished ones. */
  lemma HeldTasksAreTheCancelledUnfinished(s: System)
    requires Reachable(s)
    ensures forall id :: id in s.probes && s.probes[id].task.Running? ==>
      (id in s.detached <==> s.probes[id].cancelRequested)
    ensures (forall id :: id in s.probes ==> !Enabled(s, Consume(id))) ==> s.detached == CancelledUnfinished(s)
  {
    ReachableInvariant(s);
    if forall id :: id in s.probes ==> !Enabled(s, Consume(id)) {
      forall id | id in s.probes
        ensures id in s.detached <==> id in CancelledUnfinished(s)
      {
        assert Tidy(s.probes[id]) && !Enabled(s, Consume(id));
      }
    }
  }

  function CancelledUnfinished(s: System): set<Id> {
    set id | id in s.probes && s.probes[id].cancelRequested && s.probes[id].task.Running?
  }

  // ----- What a run says about a probe -----

  /** How a probe's fetch ended: by the first step that ends it. */
  function FetchIn(steps: seq<Step>, id: Id): Option<Fetch> {
    if steps == [] then None
    else
      var before, last := FetchIn(steps[..|steps| - 1], id), steps[|steps| - 1];
      if before.Some? then before
      else if last.FetchEnds? && last.id == id then Some(last.fetch)
      else if last == FetchTimesOut(id) then Some(TimedOut)
      else if last == Cancel(id) then Some(FetchCancelled)
      else None
  }

  /** The cancellations that arrived once the fetch had ended. */
  function CancelsIn(steps: seq<Step>, id: Id): nat {
    if steps == [] then 0
    else
      var front := steps[..|steps| - 1];
      CancelsIn(front, id) + if steps[|steps| - 1] == Cancel(id) && FetchIn(front, id).Some? then 1 else 0
  }

  function TaskIn(steps: seq<Step>, id: Id): Task {
    if steps == [] then NotStarted
    else
      var front, last := steps[..|steps| - 1], steps[|steps| - 1];
      if last.TaskFinishes? && last.id == id then Finished(last.ending)
      else if FetchIn(front, id).None? && FetchIn(steps, id).Some? then Running
      else TaskIn(front, id)
  }

  /** Whether the close was given up: its timer fired, or the probe saw it raise a timeout. */
  function GivenUpIn(steps: seq<Step>, id: Id): bool {
    steps != []
    && (GivenUpIn(steps[..|steps| - 1], id)
        || steps[|steps| - 1] == CloseTimesOut(id)
        || (steps[|steps| - 1] == Resume(id) && TaskIn(steps[..|steps| - 1], id) == Finished(RaisedTimeout)))
  }

  lemma {:induction false} RunFront(s: System, steps: seq<Step>)
    requires IsRun(s, steps) && steps != []
    ensures var front, last := steps[..|steps| - 1], steps[|steps| - 1];
      IsRun(s, front) && Enabled(Run(s, front), last) && Run(s, steps) == Apply(Run(s, front), last)
    decreases |steps|
  {
    var front := steps[..|steps| - 1];
    if front != [] {
      RunFront(Apply(s, steps[0]), steps[1..]);
      assert steps[1..][..|steps| - 2] == front[1..];
    } else {
      assert steps[1..] == [];
    }
  }

  ghost predicate Records(steps: seq<Step>, id: Id, s: System) {
    && (id in s.probes <==> Begin(id) in steps)
    && (id !in s.probes ==> FetchIn(steps, id).None?)
    && (id in s.probes ==>
          && s.probes[id].fetch == FetchIn(steps, id) && s.probes[id].cancels == CancelsIn(steps, id)
          && s.probes[id].task == TaskIn(steps, id) && s.probes[id].cancelRequested == GivenUpIn(steps, id))
    && (id !in s.probes ==> CancelsIn(steps, id) == 0 && TaskIn(steps, id) == NotStarted && !GivenUpIn(steps, id))
  }

  /** The state of a probe records exactly what the steps did to it. */
  lemma {:induction false} RunRecords(clock: real, steps: seq<Step>, id: Id)
    requires IsRun(Start(clock), steps)
    ensures Records(steps, id, Run(Start(clock), steps))
    decreases |steps|
  {
    if steps != [] {
      var front, last := steps[..|steps| - 1], steps[|steps| - 1];
      RunFront(Start(clock), steps);
      RunRecords(clock, front, id);
      RunKeepsInvariant(Start(clock), front);
      assert steps == front + [last];
      StepRecords(front, last, id, Run(Start(clock), front));
    }
  }

  lemma StepRecords(front: seq<Step>, last: Step, id: Id, s: System)
    requires Invariant(s) && Enabled(s, last) && Records(front, id, s)
    ensures Records(front + [last], id, Apply(s, last))
  {
    hide Timely, Truthful, Conclude, FetchStatus, Deadline;
    var steps := front + [last];
    assert steps[..|steps| - 1] == front;
    if !last.Tick? && last.id != id {
      StepMovesOneProbe(s, last);
    } else if id in s.probes {
      assert Tidy(s.probes[id]);
    }
  }

  /** What a probe answers is fixed by the steps of the run. */
  lemma OutcomesAreExact(clock: real, steps: seq<Step>, id: Id)
    requires IsRun(Start(clock), steps)
    requires id in Run(Start(clock), steps).probes && Run(Start(clock), steps).probes[id].phase.Ended?
    ensures FetchIn(steps, id).Some?
    ensures EndsAs(FetchIn(steps, id).value, CancelsIn(steps, id), GivenUpIn(steps, id), TaskIn(steps, id),
                   Run(Start(clock), steps).probes[id].phase.outcome)
  {
    RunRecords(clock, steps, id);
    RunKeepsInvariant(Start(clock), steps);
    assert Truthful(Run(Start(clock), steps).probes[id]);
  }

  /** A status is reported exactly when no cancellation reached the close, the fetch neither
      was cancelled nor crashed, and the session was closed cleanly or given up; it is the
      fetch's own only after a clean close. */
  lemma ReportsAreTruthful(s: System, id: Id)
    requires Reachable(s) && id in s.probes && s.probes[id].phase.Ended?
    ensures s.probes[id].fetch.Some?
    ensures var probe := s.probes[id];
      var closed := !probe.cancelRequested && probe.task == Finished(Clean);
      && (probe.phase.outcome.Report? <==>
            probe.cancels == 0 && (closed || probe.cancelRequested)
            && !probe.fetch.value.FetchCancelled? && !probe.fetch.value.Crashed?)
      && (probe.phase.outcome.Report? ==>
            && (probe.phase.outcome.status.Healthy? <==> probe.fetch.value.Fetched? && closed)
            && (probe.phase.outcome.status.ChallengeRequired? <==> probe.fetch.value.Challenged? && closed)
            && (probe.phase.outcome.status.RateLimitedSource? <==> probe.fetch.value.RateLimited? && closed))
  {
    ReachableInvariant(s);
    assert Truthful(s.probes[id]) && Tidy(s.probes[id]);
  }

  /** Timers fire when they are due and not before. */
  lemma TimersFireOnTime(s: System, id: Id)
    requires Reachable(s) && id in s.probes
    ensures var probe := s.probes[id];
      && (probe.fetch == Some(TimedOut) ==> probe.closeStarted == probe.started + 5.0)
      && (probe.cancelRequested && probe.phase.Ended? && probe.task != Finished(RaisedTimeout) ==>
            probe.phase.at == probe.closeStarted + 1.0)
  {
    ReachableInvariant(s);
    assert Timely(s.clock, s.probes[id]);
  }

  function IdsIn(s: System, fetching: bool): set<Id> {
    set id | id in s.probes && Live(s, id) && s.probes[id].phase.Fetching? == fetching
  }

  lemma {:induction false} EarliestDeadline(s: System, ids: set<Id>) returns (first: Id)
    requires ids != {} && ids <= s.probes.Keys
    ensures first in ids && forall id :: id in ids ==> Deadline(s.probes[first]) <= Deadline(s.probes[id])
  {
    var one :| one in ids;
    var rest := ids - {one};
    assert ids == rest + {one};
    first := one;
    if rest != {} {
      var other := EarliestDeadline(s, rest);
      if Deadline(s.probes[other]) < Deadline(s.probes[one]) {
        first := other;
      }
    }
  }

  predicate OnlyTimePasses(steps: seq<Step>) {
    forall step :: step in steps ==> step.Tick? || step.FetchTimesOut? || step.CloseTimesOut?
  }

  function TimeoutOf(s: System, id: Id): Step
    requires id in s.probes
  {
    if s.probes[id].phase.Fetching? then FetchTimesOut(id) else CloseTimesOut(id)
  }

  /** While a probe is live, time can move to the next deadline and its timer can fire. */
  lemma NextTimeout(s: System) returns (id: Id)
    requires Invariant(s) && IdsIn(s, true) + IdsIn(s, false) != {}
    ensures Live(s, id) && Enabled(s, Tick(Deadline(s.probes[id])))
    ensures Enabled(Apply(s, Tick(Deadline(s.probes[id]))), TimeoutOf(s, id))
  {
    var live := IdsIn(s, true) + IdsIn(s, false);
    id := EarliestDeadline(s, live);
    assert Timely(s.clock, s.probes[id]);
    forall other | other in s.probes && Live(s, other)
      ensures Deadline(s.probes[id]) <= Deadline(s.probes[other])
    {
      assert other in live;
    }
  }

  /** Firing a timer moves its probe one phase on and leaves the others where they are. */
  lemma TimeoutAdvances(s: System, id: Id)
    requires Invariant(s) && Live(s, id) && Enabled(s, TimeoutOf(s, id))
    ensures var t := Apply(s, TimeoutOf(s, id));
      && Invariant(t) && t.probes.Keys == s.probes.Keys
      && (s.probes[id].phase.Fetching? ==> IdsIn(t, true) == IdsIn(s, true) - {id} && id in IdsIn(s, true))
      && (!s.probes[id].phase.Fetching? ==>
            IdsIn(t, true) == IdsIn(s, true) && IdsIn(t, false) == IdsIn(s, false) - {id} && id in IdsIn(s, false))
  {
    StepKeepsInvariant(s, TimeoutOf(s, id));
    StepMovesOneProbe(s, TimeoutOf(s, id));
  }

  /** The timeouts alone bring every probe to its end: nothing has to finish, be
      cancelled or be answered, and no timer is ever blocked. */
  lemma {:induction false} TimeoutsEndEveryProbe(s: System) returns (steps: seq<Step>)
    requires Invariant(s)
    ensures IsRun(s, steps) && OnlyTimePasses(steps)
    ensures Run(s, steps).probes.Keys == s.probes.Keys
    ensures forall id :: id in s.probes ==> Run(s, steps).probes[id].phase.Ended?
    decreases IdsIn(s, true), IdsIn(s, false)
  {
    if IdsIn(s, true) + IdsIn(s, false) == {} {
      steps := [];
      forall id | id in s.probes
        ensures s.probes[id].phase.Ended?
      {
        assert id !in IdsIn(s, true) + IdsIn(s, false);
      }
    } else {
      var id := NextTimeout(s);
      var tick, fire := Tick(Deadline(s.probes[id])), TimeoutOf(s, id);
      var due := Apply(s, tick);
      StepKeepsInvariant(s, tick);
      assert IdsIn(due, true) == IdsIn(s, true) && IdsIn(due, false) == IdsIn(s, false);
      TimeoutAdvances(due, id);
      var rest := TimeoutsEndEveryProbe(Apply(due, fire));
      PrependSteps(s, tick, fire, rest);
      steps := [tick, fire] + rest;
    }
  }

  lemma PrependSteps(s: System, a: Step, b: Step, rest: seq<Step>)
    requires Enabled(s, a) && Enabled(Apply(s, a), b) && IsRun(Apply(Apply(s, a), b), rest)
    ensures IsRun(s, [a, b] + rest)
    ensures Run(s, [a, b] + rest) == Run(Apply(Apply(s, a), b), rest)
  {
    var steps := [a, b] + rest;
    assert steps[1..] == [b] + rest && steps[1..][1..] == rest;
  }

  /** From every reachable state all probes can end by timeouts alone, each in time. */
  lemma EveryProbeEnds(s: System) returns (steps: seq<Step>)
    requires Reachable(s)
    ensures IsRun(s, steps) && OnlyTimePasses(steps)
    ensures forall id :: id in s.probes ==> id in Run(s, steps).probes && Run(s, steps).probes[id].phase.Ended?
  {
    ReachableInvariant(s);
    steps := TimeoutsEndEveryProbe(s);
  }

  lemma {:induction false} RunAppend(s: System, first: seq<Step>, step: Step)
    requires IsRun(s, first) && Enabled(Run(s, first), step)
    ensures IsRun(s, first + [step]) && Run(s, first + [step]) == Apply(Run(s, first), step)
    decreases |first|
  {
    if first == [] {
      assert (first + [step])[1..] == [];
    } else {
      assert (first + [step])[1..] == first[1..] + [step];
      RunAppend(Apply(s, first[0]), first[1..], step);
    }
  }

  lemma ReachableStep(s: System, step: Step)
    requires Reachable(s) && Enabled(s, step)
    ensures Reachable(Apply(s, step))
  {
    var clock: real, steps: seq<Step> :| IsRun(Start(clock), steps) && Run(Start(clock), steps) == s;
    RunAppend(Start(clock), steps, step);
  }

  predicate LosesTask(s: System, id: Id) {
    id in s.probes && s.probes[id].phase.Ended? && s.probes[id].task.Running? && id !in s.detached
  }

  /** Two cancellations during one close leave its task running and held by nobody. */
  lemma SecondCancellationLosesTheTask()
    ensures exists s: System :: Reachable(s) && LosesTask(s, 0)
  {
    var s0 := Start(0.0);
    assert IsRun(s0, []) && Run(s0, []) == s0;
    var s1 := Apply(s0, Begin(0));
    ReachableStep(s0, Begin(0));
    var s2 := Apply(s1, FetchEnds(0, Fetched));
    ReachableStep(s1, FetchEnds(0, Fetched));
    var s3 := Apply(s2, Cancel(0));
    ReachableStep(s2, Cancel(0));
    var s4 := Apply(s3, Cancel(0));
    ReachableStep(s3, Cancel(0));
    assert LosesTask(s4, 0);
  }
}
