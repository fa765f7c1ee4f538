/** When a circuit opened, when it lets requests through again, and every change of state, read off the calls the
    circuit has received. */
module CircuitTimes {
  import opened Wrappers
  import opened WallClock
  import opened CircuitBreaker
  import opened CircuitHistory

  // ---- The time of the opening ----

  /** The `k`-th call opened the circuit: by force, or by taking it to Open. */
  ghost predicate OpensAt(c: Circuit, ops: seq<Op>, k: nat) {
    && k < |ops|
    && (ops[k].ForceOpen? || (After(c, ops[..k + 1]).state.Open? && !After(c, ops[..k]).state.Open?))
  }

  ghost predicate LastOpening(c: Circuit, ops: seq<Op>, k: nat) {
    OpensAt(c, ops, k) && forall j :: k < j < |ops| ==> !OpensAt(c, ops, j)
  }

  lemma OpensAtEarlier(c: Circuit, ops: seq<Op>, k: nat)
    requires ops != [] && k < |ops| - 1
    ensures OpensAt(c, ops, k) <==> OpensAt(c, Init(ops), k)
  {
    assert Init(ops)[..k] == ops[..k] && Init(ops)[..k + 1] == ops[..k + 1];
  }

  lemma OpensAtLast(c: Circuit, ops: seq<Op>)
    requires ops != []
    ensures OpensAt(c, ops, |ops| - 1) <==>
            Last(ops).ForceOpen? || (After(c, ops).state.Open? && !After(c, Init(ops)).state.Open?)
  {
    assert ops[..|ops|] == ops;
  }

  lemma LastOpeningStays(c: Circuit, ops: seq<Op>, k: nat)
    requires ops != [] && LastOpening(c, Init(ops), k) && !OpensAt(c, ops, |ops| - 1)
    ensures LastOpening(c, ops, k)
  {
    OpensAtEarlier(c, ops, k);
    forall j | k < j < |ops|
      ensures !OpensAt(c, ops, j)
    {
      if j < |ops| - 1 {
        OpensAtEarlier(c, ops, j);
      }
    }
  }

  /** A call that opens a circuit stamps it with its own time; any other call keeps the stamp of a circuit that it
      leaves open or half-open. */
  lemma OpeningStamp(c: Circuit, op: Op)
    requires c.state.Closed? <==> c.openedAt.None?
    ensures op.ForceOpen? || (Step(c, op).state.Open? && !c.state.Open?) ==> Step(c, op).openedAt == Some(op.now)
    ensures !op.ForceOpen? && !(Step(c, op).state.Open? && !c.state.Open?) && !Step(c, op).state.Closed? ==>
              !c.state.Closed? && Step(c, op).openedAt == c.openedAt
  {
  }

  /** An open or half-open circuit carries the time of the call that last opened it, for any calls. */
  lemma {:induction false} OpenedByLastOpening(c: Circuit, ops: seq<Op>) returns (k: nat)
    requires IsNew(c) && !After(c, ops).state.Closed?
    ensures LastOpening(c, ops, k) && After(c, ops).openedAt == Some(ops[k].now)
    decreases |ops|
  {
    var before := After(c, Init(ops));
    OpenedAtKnown(c, Init(ops));
    OpeningStamp(before, Last(ops));
    OpensAtLast(c, ops);
    if OpensAt(c, ops, |ops| - 1) {
      k := |ops| - 1;
    } else {
      k := OpenedByLastOpening(c, Init(ops));
      LastOpeningStays(c, ops, k);
    }
  }

  // ---- The gate ----

  /** At least the timeout, read as an i64, has passed; whole seconds are truncated toward zero. */
  predicate Passed(elapsed: int, timeoutSeconds: nat) {
    var t := AsI64(timeoutSeconds);
    if t > 0 then elapsed >= t * NANOS else elapsed > (t - 1) * NANOS
  }

  lemma PassedInSeconds(elapsed: int, timeoutSeconds: nat)
    ensures WholeSeconds(elapsed) >= AsI64(timeoutSeconds) <==> Passed(elapsed, timeoutSeconds)
  {
  }

  /** For every call history: the gate answers true exactly when the circuit is not open, or the timeout has
      passed since the call that last opened it. */
  lemma GateAnswersIff(c: Circuit, ops: seq<Op>, now: Time) returns (k: nat)
    requires IsNew(c) && After(c, ops).state.Open?
    ensures LastOpening(c, ops, k)
    ensures GateAnswer(After(c, ops), now) <==> Passed(now - ops[k].now, c.config.timeoutSeconds)
  {
    k := OpenedByLastOpening(c, ops);
    ConfigFixed(c, ops);
    PassedInSeconds(now - ops[k].now, c.config.timeoutSeconds);
  }

  lemma GateAnswersWhenNotOpen(c: Circuit, now: Time)
    ensures !c.state.Open? ==> GateAnswer(c, now)
  {
  }

  lemma {:induction false} AfterSplit(c: Circuit, ops: seq<Op>, k: nat)
    requires k <= |ops|
    ensures After(c, ops) == After(After(c, ops[..k]), ops[k..])
    decreases |ops|
  {
    if k == |ops| {
      assert ops[..k] == ops && ops[k..] == [];
    } else {
      AfterSplit(c, Init(ops), k);
      assert Init(ops)[..k] == ops[..k] && Init(ops)[k..] == Init(ops[k..]) && Last(ops[k..]) == Last(ops);
    }
  }

  lemma OpenAfterOpening(c: Circuit, ops: seq<Op>, k: nat)
    requires IsNew(c) && OpensAt(c, ops, k)
    ensures After(c, ops[..k + 1]).state.Open? && After(c, ops[..k + 1]).openedAt == Some(ops[k].now)
  {
    var front := ops[..k + 1];
    assert Init(front) == ops[..k] && Last(front) == ops[k];
    OpenedAtKnown(c, ops[..k]);
    OpeningStamp(After(c, ops[..k]), ops[k]);
  }

  /** After any call that opened the circuit, and any later calls short of a forced closing, the gate answers true
      only if some gate call since, this one included, has read a time at least the timeout after an opening. */
  lemma OpenedGateNeedsTimeout(c: Circuit, ops: seq<Op>, k: nat, now: Time)
    requires IsNew(c) && OpensAt(c, ops, k) && NoForcedClosing(ops[k + 1..])
    ensures GateAnswer(After(c, ops), now) ==>
              LetThrough(ops[k + 1..] + [Gate(now)], ops[k].now, AsI64(c.config.timeoutSeconds))
  {
    var front := After(c, ops[..k + 1]);
    OpenAfterOpening(c, ops, k);
    AfterSplit(c, ops, k + 1);
    ConfigFixed(c, ops[..k + 1]);
    GateNeedsTimeout(front, ops[k + 1..], ops[k].now, now);
  }

  // ---- Every change of state ----

  /** An open circuit becomes half-open exactly on a gate call after the timeout, closes exactly by force, and
      otherwise stays open. */
  lemma OpenLeavesIff(c: Circuit, ops: seq<Op>) returns (k: nat)
    requires IsNew(c) && ops != [] && After(c, Init(ops)).state.Open?
    ensures LastOpening(c, Init(ops), k)
    ensures After(c, ops).state.HalfOpen? <==>
            Last(ops).Gate? && Passed(Last(ops).now - ops[k].now, c.config.timeoutSeconds)
    ensures After(c, ops).state.Closed? <==> Last(ops).ForceClose?
  {
    k := GateAnswersIff(c, Init(ops), Last(ops).now);
    OpenedAtKnown(c, Init(ops));
  }

  /** A half-open circuit opens again exactly on a failure or by force. */
  lemma HalfOpenReopensIff(c: Circuit, ops: seq<Op>)
    requires ops != [] && After(c, Init(ops)).state.HalfOpen?
    ensures After(c, ops).state.Open? <==> Last(ops).Failure? || Last(ops).ForceOpen?
  {
  }

  /** Forced calls take effect in every state, and nothing else opens a closed circuit but a failure. */
  lemma ForcedStates(c: Circuit, op: Op)
    ensures op.ForceOpen? ==> Step(c, op).state.Open?
    ensures op.ForceClose? ==> Step(c, op).state.Closed?
    ensures c.state.Closed? && !Step(c, op).state.Closed? ==> op.Failure? || op.ForceOpen?
  {
  }

  // ---- The other stamps and counters ----

  function LastFailureTime(ops: seq<Op>): Option<Time> {
    if ops == [] then None else if Last(ops).Failure? then Some(Last(ops).now) else LastFailureTime(Init(ops))
  }

  function LastSuccessTime(ops: seq<Op>): Option<Time> {
    if ops == [] then None else if Last(ops).Success? then Some(Last(ops).now) else LastSuccessTime(Init(ops))
  }

  lemma CallStamps(c: Circuit, op: Op)
    ensures Step(c, op).lastFailure == if op.Failure? then Some(op.now) else c.lastFailure
    ensures Step(c, op).lastSuccess == if op.Success? then Some(op.now) else c.lastSuccess
    ensures Step(c, op).createdAt == c.createdAt && Step(c, op).serviceName == c.serviceName
  {
  }

  /** The stamps of the last failure and success are those calls' times; the other particulars never change. */
  lemma {:induction false} StampsFromCalls(c: Circuit, ops: seq<Op>)
    requires IsNew(c)
    ensures After(c, ops).lastFailure == LastFailureTime(ops) && After(c, ops).lastSuccess == LastSuccessTime(ops)
    ensures After(c, ops).createdAt == c.createdAt && After(c, ops).serviceName == c.serviceName
  {
    if ops != [] {
      StampsFromCalls(c, Init(ops));
      CallStamps(After(c, Init(ops)), Last(ops));
    }
  }

  lemma HalfOpenStamp(c: Circuit, op: Op)
    ensures Step(c, op).state.HalfOpen? && !c.state.HalfOpen? ==> op.Gate? && Step(c, op).halfOpenAt == Some(op.now)
    ensures Step(c, op).state.HalfOpen? && c.state.HalfOpen? ==> Step(c, op).halfOpenAt == c.halfOpenAt
  {
  }

  /** A half-open circuit carries the time of the gate call that made it half-open. */
  lemma {:induction false} HalfOpenAtFromCalls(c: Circuit, ops: seq<Op>)
    requires IsNew(c) && After(c, ops).state.HalfOpen?
    ensures var k := HalfOpenSince(c, ops);
            k > 0 && ops[k - 1].Gate? && After(c, ops).halfOpenAt == Some(ops[k - 1].now)
    decreases |ops|
  {
    var before := After(c, Init(ops));
    HalfOpenStamp(before, Last(ops));
    if before.state.HalfOpen? {
      HalfOpenAtFromCalls(c, Init(ops));
    }
  }

  /** The failures received while closed since the last success while closed or the last closing. */
  function FailuresWhileClosed(c: Circuit, ops: seq<Op>): nat {
    if ops == [] then 0
    else
      var before, after := After(c, Init(ops)).state, After(c, ops).state;
      if after.Closed? && (!before.Closed? || Last(ops).Success? || Last(ops).ForceClose?) then 0
      else if before.Closed? && Last(ops).Failure? then FailuresWhileClosed(c, Init(ops)) + 1
      else FailuresWhileClosed(c, Init(ops))
  }

  lemma FailureCountStep(c: Circuit, op: Op)
    ensures Step(c, op).failureCount
            == if Step(c, op).state.Closed? && (!c.state.Closed? || op.Success? || op.ForceClose?) then 0
               else if c.state.Closed? && op.Failure? then c.failureCount + 1
               else c.failureCount
  {
  }

  /** In every state the failure count is that number. */
  lemma {:induction false} FailureCountFromCalls(c: Circuit, ops: seq<Op>)
    requires IsNew(c)
    ensures After(c, ops).failureCount == FailuresWhileClosed(c, ops)
  {
    if ops != [] {
      FailureCountFromCalls(c, Init(ops));
      FailureCountStep(After(c, Init(ops)), Last(ops));
    }
  }

  /** The successes that kept the circuit half-open, since it last became half-open, closed, or failed there. */
  function SuccessesWhileHalfOpen(c: Circuit, ops: seq<Op>): nat {
    if ops == [] then 0
    else
      var before, after := After(c, Init(ops)).state, After(c, ops).state;
      if after.Closed? && (!before.Closed? || Last(ops).ForceClose?) then 0
      else if after.HalfOpen? && !before.HalfOpen? then 0
      else if before.HalfOpen? && Last(ops).Failure? then 0
      else if before.HalfOpen? && Last(ops).Success? then SuccessesWhileHalfOpen(c, Init(ops)) + 1
      else SuccessesWhileHalfOpen(c, Init(ops))
  }

  lemma SuccessCountStep(c: Circuit, op: Op)
    ensures var after := Step(c, op);
            after.successCount == if after.state.Closed? && (!c.state.Closed? || op.ForceClose?) then 0
                                  else if after.state.HalfOpen? && !c.state.HalfOpen? then 0
                                  else if c.state.HalfOpen? && op.Failure? then 0
                                  else if c.state.HalfOpen? && op.Success? then c.successCount + 1
                                  else c.successCount
  {
  }

  /** In every state the success count is that number. */
  lemma {:induction false} SuccessCountFromCalls(c: Circuit, ops: seq<Op>)
    requires IsNew(c)
    ensures After(c, ops).successCount == SuccessesWhileHalfOpen(c, ops)
  {
    if ops != [] {
      SuccessCountFromCalls(c, Init(ops));
      SuccessCountStep(After(c, Init(ops)), Last(ops));
    }
  }

  /** A closed circuit carries no stamp of an opening or half-opening, and no successes. */
  lemma {:induction false} ClosedIsReset(c: Circuit, ops: seq<Op>)
    requires IsNew(c)
    ensures After(c, ops).state.Closed? ==>
              After(c, ops).openedAt.None? && After(c, ops).halfOpenAt.None? && After(c, ops).successCount == 0
  {
    if ops != [] {
      ClosedIsReset(c, Init(ops));
    }
  }

  // ---- Many circuits ----

  /** In every run on many circuits, what the gate of a registered, open circuit answers is decided by the last of
      the circuit's own calls since registration that opened it. */
  lemma RegisteredGateAnswersIff(calls: seq<Call>, id: string, now: Time) returns (k: nat)
    requires LifeOf(calls, id).Some? && id in RunCalls(calls).circuits && RunCalls(calls).circuits[id].state.Open?
    ensures var life := LifeOf(calls, id).value;
            && LastOpening(life.start, life.ops, k)
            && RunCalls(calls).circuits[id].openedAt == Some(life.ops[k].now)
            && (GateAnswer(RunCalls(calls).circuits[id], now)
                <==> Passed(now - life.ops[k].now, life.start.config.timeoutSeconds))
  {
    CircuitsAreIndependent(calls, id);
    var life := LifeOf(calls, id).value;
    k := OpenedByLastOpening(life.start, life.ops);
    ConfigFixed(life.start, life.ops);
    PassedInSeconds(now - life.ops[k].now, life.start.config.timeoutSeconds);
  }
}
