/** The circuit breaker of wallet/src/circuit_breaker.rs: one timed three-state machine per service, and the
    manager that holds them with their common event log. */
module CircuitBreaker {
  import opened Wrappers
  import opened WallClock

  datatype CircuitState = Closed | Open | HalfOpen

  /** The back-off settings of the source are stored and never read; they are left out. */
  datatype CircuitConfig = CircuitConfig(failureThreshold: nat, successThreshold: nat, timeoutSeconds: nat)

  datatype Circuit = Circuit(
    id: string, serviceName: string, state: CircuitState, config: CircuitConfig,
    failureCount: nat, successCount: nat,
    totalRequests: nat, totalFailures: nat, totalSuccesses: nat,
    lastFailure: Option<Time>, lastSuccess: Option<Time>,
    openedAt: Option<Time>, halfOpenAt: Option<Time>, createdAt: Time)

  datatype EventType = StateChange | ForcedOpen | ForcedClose

  datatype CircuitEvent = CircuitEvent(
    circuitId: string, eventType: EventType, fromState: CircuitState, toState: CircuitState, timestamp: Time)

  datatype BreakerError = CircuitNotFound(id: string) | DuplicateCircuit(id: string)

  /** The calls one circuit can receive, with the clock reading of the call. */
  datatype Op =
    | Success(now: Time) | Failure(now: Time) | Gate(now: Time) | ForceOpen(now: Time) | ForceClose(now: Time)

  function NewCircuit(id: string, serviceName: string, config: CircuitConfig, now: Time): Circuit {
    Circuit(id, serviceName, Closed, config, 0, 0, 0, 0, 0, None, None, None, None, now)
  }

  /** `num_seconds`: whole seconds, truncated toward zero. */
  function WholeSeconds(d: int): int {
    if d >= 0 then d / NANOS else -((-d) / NANOS)
  }

  predicate TimedOut(c: Circuit, now: Time) {
    c.openedAt.Some? && WholeSeconds(now - c.openedAt.value) >= AsI64(c.config.timeoutSeconds)
  }

  predicate GateAnswer(c: Circuit, now: Time) {
    c.state.Open? ==> TimedOut(c, now)
  }

  function Close(c: Circuit): Circuit {
    c.(state := Closed, failureCount := 0, successCount := 0, openedAt := None, halfOpenAt := None)
  }

  /** The circuit after one call. */
  function Step(c: Circuit, op: Op): Circuit {
    match op
    case Success(now) =>
      var c := c.(totalRequests := c.totalRequests + 1, totalSuccesses := c.totalSuccesses + 1,
                  lastSuccess := Some(now));
      (match c.state
       case HalfOpen =>
         if c.successCount + 1 >= c.config.successThreshold then Close(c) else c.(successCount := c.successCount + 1)
       case Closed => c.(failureCount := 0)
       case Open => c)
    case Failure(now) =>
      var c := c.(totalRequests := c.totalRequests + 1, totalFailures := c.totalFailures + 1, lastFailure := Some(now));
      (match c.state
       case Closed =>
         var c := c.(failureCount := c.failureCount + 1);
         if c.failureCount >= c.config.failureThreshold then c.(state := Open, openedAt := Some(now)) else c
       case HalfOpen => c.(state := Open, openedAt := Some(now), successCount := 0)
       case Open => c)
    case Gate(now) =>
      if c.state.Open? && TimedOut(c, now) then c.(state := HalfOpen, halfOpenAt := Some(now), successCount := 0) else c
    case ForceOpen(now) => c.(state := Open, openedAt := Some(now))
    case ForceClose(now) => Close(c)
  }

  /** The event one call pushes, if any. */
  function Pushed(c: Circuit, op: Op): seq<CircuitEvent> {
    var to := Step(c, op).state;
    match op
    case ForceOpen(now) => [CircuitEvent(c.id, ForcedOpen, c.state, Open, now)]
    case ForceClose(now) => [CircuitEvent(c.id, ForcedClose, c.state, Closed, now)]
    case _ => if to == c.state then [] else [CircuitEvent(c.id, StateChange, c.state, to, op.now)]
  }

  // ---- The manager ----

  datatype Manager = Manager(circuits: map<string, Circuit>, events: seq<CircuitEvent>)

  datatype Call =
    | Register(id: string, serviceName: string, config: CircuitConfig, now: Time)
    | Unregister(id: string)
    | On(id: string, op: Op)

  /** The manager after one call; a call that fails changes nothing. */
  function Next(m: Manager, call: Call): Manager {
    match call
    case Register(id, serviceName, config, now) =>
      if id in m.circuits then m
      else m.(circuits := m.circuits[id := NewCircuit(id, serviceName, config, now)])
    case Unregister(id) => m.(circuits := m.circuits - {id})
    case On(id, op) =>
      if id !in m.circuits then m
      else Manager(m.circuits[id := Step(m.circuits[id], op)], m.events + Pushed(m.circuits[id], op))
  }

  class CircuitBreakerManager {
    var circuits: map<string, Circuit>
    var events: seq<CircuitEvent>

    ghost function State(): Manager
      reads this
    {
      Manager(circuits, events)
    }

    /** Every circuit is stored under its own id. */
    ghost predicate Valid()
      reads this
    {
      forall id :: id in circuits ==> circuits[id].id == id
    }

    constructor ()
      ensures Valid() && State() == Manager(map[], [])
    {
      circuits, events := map[], [];
    }

    method RegisterCircuit(id: string, serviceName: string, config: CircuitConfig, now: Time)
      returns (r: Result<(), BreakerError>)
      requires Valid()
      modifies this
      ensures Valid() && State() == Next(old(State()), Register(id, serviceName, config, now))
      ensures r == if id in old(circuits) then Err(DuplicateCircuit(id)) else Ok(())
      ensures r.Ok? ==>
                circuits[id] == Circuit(id, serviceName, Closed, config, 0, 0, 0, 0, 0, None, None, None, None, now)
    {
      if id in circuits {
        return Err(DuplicateCircuit(id));
      }
      circuits := circuits[id := NewCircuit(id, serviceName, config, now)];
      return Ok(());
    }

    method UnregisterCircuit(id: string) returns (r: Result<Circuit, BreakerError>)
      requires Valid()
      modifies this
      ensures Valid() && State() == Next(old(State()), Unregister(id))
      ensures r == if id in old(circuits) then Ok(old(circuits)[id]) else Err(CircuitNotFound(id))
    {
      if id !in circuits {
        assert circuits - {id} == circuits;
        return Err(CircuitNotFound(id));
      }
      r := Ok(circuits[id]);
      circuits := circuits - {id};
    }

    method RecordSuccess(id: string, now: Time) returns (r: Result<(), BreakerError>)
      requires Valid()
      modifies this
      ensures Valid() && State() == Next(old(State()), On(id, Success(now)))
      ensures r == if id in old(circuits) then Ok(()) else Err(CircuitNotFound(id))
    {
      if id !in circuits {
        return Err(CircuitNotFound(id));
      }
      var circuit := circuits[id];
      circuit := circuit.(totalRequests := circuit.totalRequests + 1, totalSuccesses := circuit.totalSuccesses + 1,
                          lastSuccess := Some(now));
      match circuit.state {
        case HalfOpen =>
          circuit := circuit.(successCount := circuit.successCount + 1);
          if circuit.successCount >= circuit.config.successThreshold {
            var from := circuit.state;
            circuit := circuit.(state := Closed, failureCount := 0, successCount := 0,
                                openedAt := None, halfOpenAt := None);
            events := events + [CircuitEvent(id, StateChange, from, Closed, now)];
          }
        case Closed =>
          circuit := circuit.(failureCount := 0);
        case Open =>
      }
      circuits := circuits[id := circuit];
      return Ok(());
    }

    method RecordFailure(id: string, now: Time) returns (r: Result<(), BreakerError>)
      requires Valid()
      modifies this
      ensures Valid() && State() == Next(old(State()), On(id, Failure(now)))
      ensures r == if id in old(circuits) then Ok(()) else Err(CircuitNotFound(id))
    {
      if id !in circuits {
        return Err(CircuitNotFound(id));
      }
      var circuit := circuits[id];
      circuit := circuit.(totalRequests := circuit.totalRequests + 1, totalFailures := circuit.totalFailures + 1,
                          lastFailure := Some(now));
      match circuit.state {
        case Closed =>
          circuit := circuit.(failureCount := circuit.failureCount + 1);
          if circuit.failureCount >= circuit.config.failureThreshold {
            circuit := circuit.(state := Open, openedAt := Some(now));
            events := events + [CircuitEvent(id, StateChange, Closed, Open, now)];
          }
        case HalfOpen =>
          circuit := circuit.(state := Open, openedAt := Some(now), successCount := 0);
          events := events + [CircuitEvent(id, StateChange, HalfOpen, Open, now)];
        case Open =>
      }
      circuits := circuits[id := circuit];
      return Ok(());
    }

    /** May a request go through? An open circuit whose timeout has passed becomes half-open here. */
    method CanExecute(id: string, now: Time) returns (r: Result<bool, BreakerError>)
      requires Valid()
      modifies this
      ensures Valid() && State() == Next(old(State()), On(id, Gate(now)))
      ensures r == if id in old(circuits) then Ok(GateAnswer(old(circuits)[id], now)) else Err(CircuitNotFound(id))
    {
      if id !in circuits {
        return Err(CircuitNotFound(id));
      }
      var circuit := circuits[id];
      assert circuits == circuits[id := circuit];
      if circuit.state.Open? {
        if circuit.openedAt.Some? {
          var elapsed := now - circuit.openedAt.value;
          if WholeSeconds(elapsed) >= AsI64(circuit.config.timeoutSeconds) {
            circuit := circuit.(state := HalfOpen, halfOpenAt := Some(now), successCount := 0);
            circuits := circuits[id := circuit];
            events := events + [CircuitEvent(circuit.id, StateChange, Open, HalfOpen, now)];
            return Ok(true);
          }
        }
        return Ok(false);
      }
      return Ok(true);
    }

    method ForceOpenCircuit(id: string, now: Time) returns (r: Result<(), BreakerError>)
      requires Valid()
      modifies this
      ensures Valid() && State() == Next(old(State()), On(id, ForceOpen(now)))
      ensures r == if id in old(circuits) then Ok(()) else Err(CircuitNotFound(id))
    {
      if id !in circuits {
        return Err(CircuitNotFound(id));
      }
      var from := circuits[id].state;
      circuits := circuits[id := circuits[id].(state := Open, openedAt := Some(now))];
      events := events + [CircuitEvent(id, ForcedOpen, from, Open, now)];
      return Ok(());
    }

    method ForceCloseCircuit(id: string, now: Time) returns (r: Result<(), BreakerError>)
      requires Valid()
      modifies this
      ensures Valid() && State() == Next(old(State()), On(id, ForceClose(now)))
      ensures r == if id in old(circuits) then Ok(()) else Err(CircuitNotFound(id))
    {
      if id !in circuits {
        return Err(CircuitNotFound(id));
      }
      var from := circuits[id].state;
      circuits := circuits[id := circuits[id].(state := Closed, failureCount := 0, successCount := 0,
                                               openedAt := None, halfOpenAt := None)];
      events := events + [CircuitEvent(id, ForcedClose, from, Closed, now)];
      return Ok(());
    }
  }
}
