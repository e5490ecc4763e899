/** The process-local gate in front of the browser resolver: a concurrency limit
    and a circuit breaker.  Every lock section of the source is one atomic step,
    because no section suspends while it holds the lock. */
module ResolverGate {
  import opened Results

  datatype CircuitState = Closed | Open | HalfOpen

  datatype Limits = Limits(maxConcurrency: int, failureThreshold: int, cooldown: real)

  /** The bounds the constructor accepts; it raises ValueError otherwise. */
  predicate ValidLimits(limits: Limits) {
    1 <= limits.maxConcurrency <= 4 && 1 <= limits.failureThreshold && 0.0 < limits.cooldown
  }

  datatype Gate = Gate(active: int, failures: nat, state: CircuitState, openedAt: Option<real>)

  const FRESH_GATE := Gate(0, 0, Closed, None)

  datatype Verdict = Admitted | CircuitOpen | Busy

  /** Entering a slot.  The circuit turns half open before the busy check, so a
      refused caller can still change the state. */
  function Enter(limits: Limits, gate: Gate, now: real): (Gate, Verdict) {
    if gate.state.Open? && (gate.openedAt.None? || now - gate.openedAt.value < limits.cooldown) then
      (gate, CircuitOpen)
    else
      var tried := if gate.state.Open? then gate.(state := HalfOpen) else gate;
      if tried.active >= limits.maxConcurrency || (tried.state.HalfOpen? && tried.active > 0) then
        (tried, Busy)
      else
        (tried.(active := tried.active + 1), Admitted)
  }

  function Leave(gate: Gate): Gate {
    gate.(active := gate.active - 1)
  }

  function RecordSuccess(gate: Gate): Gate {
    gate.(failures := 0, openedAt := None, state := Closed)
  }

  function RecordFailure(limits: Limits, gate: Gate, now: real): Gate {
    var failures := gate.failures + 1;
    if failures >= limits.failureThreshold then
      gate.(failures := failures, openedAt := Some(now), state := Open)
    else
      gate.(failures := failures)
  }

  class ProviderResolverRuntime {
    const limits: Limits
    var active: int
    var failures: nat
    var state: CircuitState
    var openedAt: Option<real>

    function Value(): Gate
      reads this
    {
      Gate(active, failures, state, openedAt)
    }

    constructor (limits: Limits)
      requires ValidLimits(limits)
      ensures this.limits == limits && Value() == FRESH_GATE
    {
      this.limits := limits;
      active, failures, state, openedAt := 0, 0, Closed, None;
    }

    static method Create(limits: Limits) returns (runtime: Option<ProviderResolverRuntime>)
      ensures runtime.Some? <==> ValidLimits(limits)
      ensures runtime.Some? ==> fresh(runtime.value) && runtime.value.limits == limits
      ensures runtime.Some? ==> runtime.value.Value() == FRESH_GATE
    {
      if limits.maxConcurrency < 1 || limits.maxConcurrency > 4 {
        return None;
      }
      if limits.failureThreshold < 1 || limits.cooldown <= 0.0 {
        return None;
      }
      var created := new ProviderResolverRuntime(limits);
      return Some(created);
    }

    method EnterSlot(now: real) returns (verdict: Verdict)
      modifies this
      ensures (Value(), verdict) == Enter(limits, old(Value()), now)
    {
      if state == Open {
        if openedAt.None? || now - openedAt.value < limits.cooldown {
          return CircuitOpen;
        }
        state := HalfOpen;
      }
      if active >= limits.maxConcurrency || (state == HalfOpen && active > 0) {
        return Busy;
      }
      active := active + 1;
      return Admitted;
    }

    method LeaveSlot()
      modifies this
      ensures Value() == Leave(old(Value()))
    {
      active := active - 1;
    }

    method OnSuccess()
      modifies this
      ensures Value() == RecordSuccess(old(Value()))
    {
      failures := 0;
      openedAt := None;
      state := Closed;
    }

    method OnFailure(now: real)
      modifies this
      ensures Value() == RecordFailure(limits, old(Value()), now)
    {
      failures := failures + 1;
      if failures >= limits.failureThreshold {
        openedAt := Some(now);
        state := Open;
      }
    }
  }
}
