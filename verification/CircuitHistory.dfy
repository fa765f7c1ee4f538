/** What a circuit's counters, state and events are as functions of the calls it has received. */
module CircuitHistory {
  import opened Wrappers
  import opened WallClock
  import opened Arithmetic
  import opened CircuitBreaker

  function Last<T>(s: seq<T>): T
    requires s != []
  {
    s[|s| - 1]
  }

  function Init<T>(s: seq<T>): seq<T>
    requires s != []
  {
    s[..|s| - 1]
  }

  /** A circuit after a sequence of calls, and the events they push. */
  function After(c: Circuit, ops: seq<Op>): Circuit {
    if ops == [] then c else Step(After(c, Init(ops)), Last(ops))
  }

  function Events(c: Circuit, ops: seq<Op>): seq<CircuitEvent> {
    if ops == [] then [] else Events(c, Init(ops)) + Pushed(After(c, Init(ops)), Last(ops))
  }

  ghost predicate IsNew(c: Circuit) {
    c == NewCircuit(c.id, c.serviceName, c.config, c.createdAt)
  }

  lemma ConfigStep(c: Circuit, op: Op)
    ensures Step(c, op).config == c.config && Step(c, op).id == c.id
  {
  }

  lemma {:induction false} ConfigFixed(c: Circuit, ops: seq<Op>)
    ensures After(c, ops).config == c.config && After(c, ops).id == c.id
  {
    if ops != [] {
      ConfigFixed(c, Init(ops));
      ConfigStep(After(c, Init(ops)), Last(ops));
    }
  }

  // ---- Failures of a closed circuit ----

  /** The failures after the last success or forced closing: the calls that close a circuit or reset it. */
  function FailureRun(ops: seq<Op>): nat {
    if ops == [] then 0
    else match Last(ops)
      case Success(_) => 0
      case ForceClose(_) => 0
      case Failure(_) => FailureRun(Init(ops)) + 1
      case Gate(_) => FailureRun(Init(ops))
      case ForceOpen(_) => FailureRun(Init(ops))
  }

  /** A closed circuit counts exactly the current run of failures, which is below its threshold. */
  lemma {:induction false} ClosedCountsFailures(c: Circuit, ops: seq<Op>)
    requires IsNew(c)
    ensures After(c, ops).state.Closed? ==>
              After(c, ops).failureCount == FailureRun(ops) < Max(c.config.failureThreshold, 1)
  {
    if ops != [] {
      ClosedCountsFailures(c, Init(ops));
      ConfigFixed(c, Init(ops));
    }
  }

  /** A closed circuit trips exactly when the run of failures reaches the threshold, or 1 if that is 0. */
  lemma TripsIff(c: Circuit, ops: seq<Op>)
    requires IsNew(c) && ops != [] && After(c, Init(ops)).state.Closed? && !Last(ops).ForceOpen?
    ensures After(c, ops).state.Open? <==>
            Last(ops).Failure? && FailureRun(ops) == Max(c.config.failureThreshold, 1)
    ensures !After(c, ops).state.Open? ==> After(c, ops).state.Closed?
  {
    ClosedCountsFailures(c, Init(ops));
    ConfigFixed(c, Init(ops));
  }

  // ---- Successes of a half-open circuit ----

  /** The number of calls up to the one that last made the circuit half-open. */
  function HalfOpenSince(c: Circuit, ops: seq<Op>): (n: nat)
    ensures n <= |ops|
  {
    if ops == [] then 0
    else if After(c, ops).state.HalfOpen? && !After(c, Init(ops)).state.HalfOpen? then |ops|
    else HalfOpenSince(c, Init(ops))
  }

  function Successes(ops: seq<Op>): nat {
    if ops == [] then 0 else Successes(Init(ops)) + if Last(ops).Success? then 1 else 0
  }

  function Failures(ops: seq<Op>): nat {
    if ops == [] then 0 else Failures(Init(ops)) + if Last(ops).Failure? then 1 else 0
  }

  lemma SuffixGrows(ops: seq<Op>, n: nat)
    requires ops != [] && n <= |ops| - 1
    ensures Successes(ops[n..]) == Successes(Init(ops)[n..]) + if Last(ops).Success? then 1 else 0
    ensures Failures(ops[n..]) == Failures(Init(ops)[n..]) + if Last(ops).Failure? then 1 else 0
  {
    assert Init(ops[n..]) == Init(ops)[n..] && Last(ops[n..]) == Last(ops);
  }

  ghost predicate CountsSuccesses(c: Circuit, since: seq<Op>) {
    && c.successCount == Successes(since) < Max(c.config.successThreshold, 1)
    && Failures(since) == 0
  }

  lemma StaysHalfOpen(c: Circuit, op: Op)
    requires c.state.HalfOpen? && Step(c, op).state.HalfOpen?
    ensures !op.Failure?
    ensures Step(c, op).successCount == c.successCount + if op.Success? then 1 else 0
    ensures op.Success? ==> Step(c, op).successCount < c.config.successThreshold
  {
  }

  /** A half-open circuit counts exactly the successes since it became half-open; there has been no failure
      since, and the count is below its threshold. */
  lemma {:induction false} HalfOpenCountsSuccesses(c: Circuit, ops: seq<Op>)
    requires IsNew(c)
    ensures After(c, ops).state.HalfOpen? ==> CountsSuccesses(After(c, ops), ops[HalfOpenSince(c, ops)..])
  {
    if ops != [] {
      var before := After(c, Init(ops));
      HalfOpenCountsSuccesses(c, Init(ops));
      if After(c, ops).state.HalfOpen? {
        if before.state.HalfOpen? {
          StaysHalfOpen(before, Last(ops));
          ConfigStep(before, Last(ops));
          SuffixGrows(ops, HalfOpenSince(c, ops));
        } else {
          assert ops[|ops|..] == [];
        }
      }
    }
  }

  /** A half-open circuit closes by itself exactly on the success that brings the count since it became
      half-open to the threshold, or to 1 if that is 0. */
  lemma ClosesIff(c: Circuit, ops: seq<Op>)
    requires IsNew(c) && ops != [] && After(c, Init(ops)).state.HalfOpen? && !Last(ops).ForceClose?
    ensures After(c, ops).state.Closed? <==>
            && Last(ops).Success?
            && Successes(ops[HalfOpenSince(c, Init(ops))..]) == Max(c.config.successThreshold, 1)
  {
    HalfOpenCountsSuccesses(c, Init(ops));
    ConfigFixed(c, Init(ops));
    SuffixGrows(ops, HalfOpenSince(c, Init(ops)));
  }

  /** The 32-bit counters are within their thresholds. */
  ghost predicate InThresholds(c: Circuit) {
    && c.failureCount <= Max(c.config.failureThreshold, 1)
    && c.successCount < Max(c.config.successThreshold, 1)
    && (c.state.Closed? ==> c.failureCount < Max(c.config.failureThreshold, 1))
  }

  lemma StepKeepsThresholds(c: Circuit, op: Op)
    requires InThresholds(c)
    ensures InThresholds(Step(c, op))
  {
  }

  lemma StepCounts(c: Circuit, op: Op)
    ensures Step(c, op).totalSuccesses == c.totalSuccesses + if op.Success? then 1 else 0
    ensures Step(c, op).totalFailures == c.totalFailures + if op.Failure? then 1 else 0
    ensures Step(c, op).totalRequests == c.totalRequests + if op.Success? || op.Failure? then 1 else 0
  {
  }

  /** The totals count the calls; the 32-bit counters stay within their thresholds, so they cannot overflow. */
  lemma {:induction false} CountersBounded(c: Circuit, ops: seq<Op>)
    requires IsNew(c)
    ensures After(c, ops).totalSuccesses == Successes(ops) && After(c, ops).totalFailures == Failures(ops)
    ensures After(c, ops).totalRequests == Successes(ops) + Failures(ops)
    ensures InThresholds(After(c, ops))
  {
    if ops != [] {
      CountersBounded(c, Init(ops));
      StepKeepsThresholds(After(c, Init(ops)), Last(ops));
      StepCounts(After(c, Init(ops)), Last(ops));
    }
  }

  // ---- Events ----

  /** Each event starts in the state the one before it ended in. */
  ghost predicate IsPath(es: seq<CircuitEvent>, from: CircuitState, to: CircuitState) {
    if es == [] then from == to else Last(es).toState == to && IsPath(Init(es), from, Last(es).fromState)
  }

  predicate LegalEdge(e: CircuitEvent) {
    match e.eventType
    case ForcedOpen => e.toState.Open?
    case ForcedClose => e.toState.Closed?
    case StateChange =>
      || (e.fromState.Closed? && e.toState.Open?)
      || (e.fromState.Open? && e.toState.HalfOpen?)
      || (e.fromState.HalfOpen? && !e.toState.HalfOpen?)
  }

  predicate Forced(op: Op) {
    op.ForceOpen? || op.ForceClose?
  }

  /** A call that is not forced and keeps the state pushes no event; any other pushes one event, of its kind and
      with its time, for the legal edge it takes. */
  lemma PushedShape(c: Circuit, op: Op)
    ensures Pushed(c, op) == [] <==> !Forced(op) && Step(c, op).state == c.state
    ensures Pushed(c, op) != [] ==>
              && Pushed(c, op)[0].timestamp == op.now
              && (Pushed(c, op)[0].eventType.ForcedOpen? <==> op.ForceOpen?)
              && (Pushed(c, op)[0].eventType.ForcedClose? <==> op.ForceClose?)
    ensures Pushed(c, op) == [] ==> Step(c, op).state == c.state
    ensures Pushed(c, op) != [] ==>
              var e := Pushed(c, op)[0];
              Pushed(c, op) == [e] && LegalEdge(e) && e.circuitId == c.id
              && e.fromState == c.state && e.toState == Step(c, op).state
  {
  }

  /** Since its registration a circuit's events lead from Closed to its present state along legal edges. */
  lemma {:induction false} EventsArePath(c: Circuit, ops: seq<Op>)
    requires IsNew(c)
    ensures IsPath(Events(c, ops), Closed, After(c, ops).state)
    ensures forall e :: e in Events(c, ops) ==> LegalEdge(e) && e.circuitId == c.id
  {
    if ops != [] {
      EventsArePath(c, Init(ops));
      ConfigFixed(c, Init(ops));
      PushedShape(After(c, Init(ops)), Last(ops));
      PathGrows(Events(c, Init(ops)), Pushed(After(c, Init(ops)), Last(ops)), c.id, Closed,
                After(c, Init(ops)).state, After(c, ops).state);
    }
  }

  lemma PathGrows(es: seq<CircuitEvent>, more: seq<CircuitEvent>, id: string, from: CircuitState, mid: CircuitState,
                  to: CircuitState)
    requires IsPath(es, from, mid) && forall e :: e in es ==> LegalEdge(e) && e.circuitId == id
    requires more == [] ==> mid == to
    requires more != [] ==>
               more == [more[0]] && LegalEdge(more[0]) && more[0].circuitId == id
               && more[0].fromState == mid && more[0].toState == to
    ensures IsPath(es + more, from, to)
    ensures forall e :: e in es + more ==> LegalEdge(e) && e.circuitId == id
  {
    if more == [] {
      assert es + more == es;
    } else {
      assert Init(es + more) == es && Last(es + more) == more[0];
    }
  }

  /** An open or half-open circuit knows when it opened; a closed one does not. */
  lemma {:induction false} OpenedAtKnown(c: Circuit, ops: seq<Op>)
    requires IsNew(c)
    ensures After(c, ops).state.Closed? <==> After(c, ops).openedAt.None?
  {
    if ops != [] {
      OpenedAtKnown(c, Init(ops));
    }
  }

  // ---- The gate ----

  lemma WholeSecondsOrdered(d: int, d': int)
    requires d <= d'
    ensures WholeSeconds(d) <= WholeSeconds(d')
  {
  }

  /** `t` is the time of an opening before the `i`-th call: the first one at `t0`, or a later one by a failure
      or by force. */
  ghost predicate Opening(ops: seq<Op>, t0: Time, i: nat, t: Time) {
    t == t0 || exists j :: 0 <= j < i && j < |ops| && (ops[j].Failure? || ops[j].ForceOpen?) && ops[j].now == t
  }

  /** The `i`-th call is a gate call that reads a time at least the timeout after an opening before it. */
  ghost predicate PassesAt(ops: seq<Op>, t0: Time, timeout: int, i: nat, t: Time) {
    i < |ops| && ops[i].Gate? && Opening(ops, t0, i, t) && WholeSeconds(ops[i].now - t) >= timeout
  }

  ghost predicate LetThrough(ops: seq<Op>, t0: Time, timeout: int) {
    exists i: nat, t: Time :: PassesAt(ops, t0, timeout, i, t)
  }

  ghost predicate HeldBack(c: Circuit, ops: seq<Op>, t0: Time) {
    c.state.Open? && c.openedAt.Some? && Opening(ops, t0, |ops|, c.openedAt.value)
  }

  ghost predicate NoForcedClosing(ops: seq<Op>) {
    forall op :: op in ops ==> !op.ForceClose?
  }

  lemma OpeningGrows(ops: seq<Op>, op: Op, t0: Time, i: nat, t: Time)
    requires Opening(ops, t0, i, t)
    ensures Opening(ops + [op], t0, i, t) && Opening(ops + [op], t0, i + 1, t)
  {
    if t != t0 {
      var j :| 0 <= j < i && j < |ops| && (ops[j].Failure? || ops[j].ForceOpen?) && ops[j].now == t;
      assert (ops + [op])[j] == ops[j];
    }
  }

  lemma LetThroughGrows(ops: seq<Op>, op: Op, t0: Time, timeout: int)
    requires LetThrough(ops, t0, timeout)
    ensures LetThrough(ops + [op], t0, timeout)
  {
    var i: nat, t: Time :| PassesAt(ops, t0, timeout, i, t);
    OpeningGrows(ops, op, t0, i, t);
    assert PassesAt(ops + [op], t0, timeout, i, t);
  }

  /** One call on a circuit that is held back. */
  lemma HeldBackStep(c: Circuit, ops: seq<Op>, op: Op, t0: Time)
    requires HeldBack(c, ops, t0) && !op.ForceClose?
    ensures HeldBack(Step(c, op), ops + [op], t0) || LetThrough(ops + [op], t0, AsI64(c.config.timeoutSeconds))
  {
    var t := c.openedAt.value;
    OpeningGrows(ops, op, t0, |ops|, t);
    assert (ops + [op])[|ops|] == op;
    if op.Gate? && TimedOut(c, op.now) {
      assert PassesAt(ops + [op], t0, AsI64(c.config.timeoutSeconds), |ops|, t);
    }
  }

  lemma {:induction false} StaysHeldBack(c: Circuit, ops: seq<Op>, t0: Time)
    requires c.state.Open? && c.openedAt == Some(t0) && NoForcedClosing(ops)
    ensures HeldBack(After(c, ops), ops, t0) || LetThrough(ops, t0, AsI64(c.config.timeoutSeconds))
  {
    if ops != [] {
      StaysHeldBack(c, Init(ops), t0);
      ConfigFixed(c, Init(ops));
      assert ops == Init(ops) + [Last(ops)];
      if HeldBack(After(c, Init(ops)), Init(ops), t0) {
        HeldBackStep(After(c, Init(ops)), Init(ops), Last(ops), t0);
      } else {
        LetThroughGrows(Init(ops), Last(ops), t0, AsI64(c.config.timeoutSeconds));
      }
    }
  }

  /** However a circuit came to be open at `t0`, whatever calls follow short of a forced closing, and however
      the clock jumps: the gate answers true only if some gate call, this one included, has read a time at
      least the timeout after an opening before it, the timeout read as the i64 the source casts it to. */
  lemma GateNeedsTimeout(c: Circuit, ops: seq<Op>, t0: Time, now: Time)
    requires c.state.Open? && c.openedAt == Some(t0) && NoForcedClosing(ops)
    ensures GateAnswer(After(c, ops), now) ==> LetThrough(ops + [Gate(now)], t0, AsI64(c.config.timeoutSeconds))
  {
    StaysHeldBack(c, ops, t0);
    ConfigFixed(c, ops);
    if HeldBack(After(c, ops), ops, t0) {
      HeldBackStep(After(c, ops), ops, Gate(now), t0);
    } else {
      LetThroughGrows(ops, Gate(now), t0, AsI64(c.config.timeoutSeconds));
    }
  }

  /** The clock readings of the calls lie between the opening and the question. */
  ghost predicate Between(ops: seq<Op>, t0: Time, now: Time) {
    forall op :: op in ops ==> t0 <= op.now <= now
  }

  lemma ReadingsBetween(ops: seq<Op>, t0: Time, now: Time, timeout: int)
    requires Between(ops, t0, now) && LetThrough(ops, t0, timeout)
    ensures WholeSeconds(now - t0) >= timeout
  {
    var i: nat, t: Time :| PassesAt(ops, t0, timeout, i, t);
    assert ops[i] in ops && t0 <= t;
    WholeSecondsOrdered(ops[i].now - t, now - t0);
  }

  /** So with a clock that does not jump back, the gate does not answer true before the timeout has passed. */
  lemma GateHoldsUntilTimeout(c: Circuit, ops: seq<Op>, t0: Time, now: Time)
    requires c.state.Open? && c.openedAt == Some(t0) && NoForcedClosing(ops)
    requires Between(ops, t0, now) && t0 <= now
    ensures GateAnswer(After(c, ops), now) ==> WholeSeconds(now - t0) >= AsI64(c.config.timeoutSeconds)
    ensures GateAnswer(After(c, ops), now) && c.config.timeoutSeconds < 0x8000_0000_0000_0000 ==>
              now - t0 >= c.config.timeoutSeconds * NANOS
  {
    if GateAnswer(After(c, ops), now) {
      GateNeedsTimeout(c, ops, t0, now);
      ReadingsBetween(ops + [Gate(now)], t0, now, AsI64(c.config.timeoutSeconds));
    }
  }

  /** The cast matters: at the instant of opening the gate already answers true exactly when the timeout is 0
      or does not fit an i64. */
  lemma GateOpensAtOnceIff(c: Circuit, t0: Time)
    requires c.state.Open? && c.openedAt == Some(t0) && c.config.timeoutSeconds < 0x1_0000_0000_0000_0000
    ensures GateAnswer(c, t0) <==>
            c.config.timeoutSeconds == 0 || c.config.timeoutSeconds >= 0x8000_0000_0000_0000
  {
  }

  // ---- Many circuits under one manager ----

  function RunCalls(calls: seq<Call>): Manager {
    if calls == [] then Manager(map[], []) else Next(RunCalls(Init(calls)), Last(calls))
  }

  /** A circuit's current registration: how it started, how long the event log was, and its calls since. */
  datatype Life = Life(start: Circuit, mark: nat, ops: seq<Op>)

  function LifeOf(calls: seq<Call>, id: string): Option<Life> {
    if calls == [] then None
    else
      var before := LifeOf(Init(calls), id);
      match Last(calls)
      case Register(i, serviceName, config, now) =>
        if i == id && before.None? then
          Some(Life(NewCircuit(id, serviceName, config, now), |RunCalls(Init(calls)).events|, []))
        else before
      case Unregister(i) => if i == id then None else before
      case On(i, op) =>
        if i == id && before.Some? then Some(before.value.(ops := before.value.ops + [op])) else before
  }

  function EventsFor(es: seq<CircuitEvent>, id: string): seq<CircuitEvent> {
    if es == [] then []
    else EventsFor(Init(es), id) + if Last(es).circuitId == id then [Last(es)] else []
  }

  /** The circuit, and its part of the event log since it was registered, are what its own calls alone give. */
  ghost predicate Follows(m: Manager, id: string, life: Life) {
    && IsNew(life.start) && life.start.id == id
    && id in m.circuits && m.circuits[id] == After(life.start, life.ops)
    && life.mark <= |m.events|
    && EventsFor(m.events[life.mark..], id) == Events(life.start, life.ops)
  }

  lemma EventsForGrows(es: seq<CircuitEvent>, more: seq<CircuitEvent>, id: string, other: string)
    requires more != [] ==> more == [more[0]] && more[0].circuitId == other
    ensures EventsFor(es + more, id) == EventsFor(es, id) + if other == id then more else []
  {
    if more == [] {
      assert es + more == es;
    } else {
      assert Init(es + more) == es && Last(es + more) == more[0];
    }
  }

  lemma EventsGrow(m: Manager, id: string, mark: nat, other: string, op: Op)
    requires other in m.circuits && m.circuits[other].id == other && mark <= |m.events|
    ensures var more := Pushed(m.circuits[other], op);
            EventsFor((m.events + more)[mark..], id)
            == EventsFor(m.events[mark..], id) + if other == id then more else []
  {
    var more := Pushed(m.circuits[other], op);
    PushedShape(m.circuits[other], op);
    EventsForGrows(m.events[mark..], more, id, other);
    assert (m.events + more)[mark..] == m.events[mark..] + more;
  }

  /** A call on another circuit. */
  lemma OtherCallFollows(m: Manager, id: string, life: Life, other: string, op: Op)
    requires Follows(m, id, life) && other in m.circuits && m.circuits[other].id == other && other != id
    ensures Follows(Next(m, On(other, op)), id, life)
  {
    EventsGrow(m, id, life.mark, other, op);
  }

  lemma HistoryGrows(c: Circuit, ops: seq<Op>, op: Op)
    ensures After(c, ops + [op]) == Step(After(c, ops), op)
    ensures Events(c, ops + [op]) == Events(c, ops) + Pushed(After(c, ops), op)
  {
    assert Init(ops + [op]) == ops && Last(ops + [op]) == op;
  }

  /** A call on the circuit itself. */
  lemma OwnCallFollows(m: Manager, id: string, life: Life, op: Op)
    requires Follows(m, id, life) && m.circuits[id].id == id
    ensures Follows(Next(m, On(id, op)), id, life.(ops := life.ops + [op]))
  {
    EventsGrow(m, id, life.mark, id, op);
    HistoryGrows(life.start, life.ops, op);
  }

  ghost predicate OwnIds(m: Manager) {
    forall id :: id in m.circuits ==> m.circuits[id].id == id
  }

  lemma {:induction false} OwnIdsKept(calls: seq<Call>)
    ensures OwnIds(RunCalls(calls))
  {
    if calls != [] {
      OwnIdsKept(Init(calls));
    }
  }

  /** In every run of calls on all circuits, a circuit is registered exactly when it has a current life, and
      then it follows that life: other circuits' calls do not touch it, and neither do earlier registrations. */
  lemma {:induction false} CircuitsAreIndependent(calls: seq<Call>, id: string)
    ensures id in RunCalls(calls).circuits <==> LifeOf(calls, id).Some?
    ensures LifeOf(calls, id).Some? ==> Follows(RunCalls(calls), id, LifeOf(calls, id).value)
  {
    if calls != [] {
      var m := RunCalls(Init(calls));
      var before := LifeOf(Init(calls), id);
      CircuitsAreIndependent(Init(calls), id);
      match Last(calls)
      case Register(i, serviceName, config, now) =>
        if i == id && before.None? {
          assert m.events[|m.events|..] == [];
        }
      case Unregister(i) =>
      case On(i, op) =>
        OwnIdsKept(Init(calls));
        if before.Some? && i in m.circuits {
          if i == id {
            OwnCallFollows(m, id, before.value, op);
          } else {
            OtherCallFollows(m, id, before.value, i, op);
          }
        }
    }
  }

  /** So in every run a registered circuit's counters are functions of its own calls since registration. */
  lemma RegisteredCounters(calls: seq<Call>, id: string)
    requires LifeOf(calls, id).Some?
    ensures var life := LifeOf(calls, id).value;
            id in RunCalls(calls).circuits &&
            var c := RunCalls(calls).circuits[id];
            && (c.state.Closed? ==> c.failureCount == FailureRun(life.ops))
            && (c.state.HalfOpen? ==> c.successCount == Successes(life.ops[HalfOpenSince(life.start, life.ops)..]))
            && c.totalRequests == Successes(life.ops) + Failures(life.ops)
  {
    CircuitsAreIndependent(calls, id);
    var life := LifeOf(calls, id).value;
    ClosedCountsFailures(life.start, life.ops);
    HalfOpenCountsSuccesses(life.start, life.ops);
    CountersBounded(life.start, life.ops);
  }

  /** So in every run the events logged for a registered circuit since its registration lead from Closed to
      its present state along legal edges. */
  lemma RegisteredEventsArePath(calls: seq<Call>, id: string)
    requires LifeOf(calls, id).Some?
    ensures var m := RunCalls(calls);
            var mark := LifeOf(calls, id).value.mark;
            && id in m.circuits && mark <= |m.events|
            && IsPath(EventsFor(m.events[mark..], id), Closed, m.circuits[id].state)
            && (forall e :: e in EventsFor(m.events[mark..], id) ==> LegalEdge(e))
            && (m.circuits[id].state.Closed? <==> m.circuits[id].openedAt.None?)
  {
    CircuitsAreIndependent(calls, id);
    var life := LifeOf(calls, id).value;
    EventsArePath(life.start, life.ops);
    OpenedAtKnown(life.start, life.ops);
  }
}
