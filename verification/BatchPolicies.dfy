/** The statuses each failure policy leaves behind, for every batch. */
module BatchPolicies {
  import opened Wrappers
  import opened BatchRun

  predicate Continues(policy: RollbackPolicy) {
    policy.NoPolicy? || policy.ContinueOnFailure?
  }

  // ---- Policies that go on after a failure ----

  /** A transaction at an earlier position failed that this one names as its dependency. */
  ghost predicate DependencyFailed(txs: seq<BatchTx>, j: nat)
    requires j < |txs|
  {
    exists k :: 0 <= k < j && txs[k].status.Failed? && txs[j].dependsOn == Some(txs[k].id)
  }

  ghost predicate StatusRight(txs: seq<BatchTx>, j: nat)
    requires j < |txs|
  {
    txs[j].status == if DependencyFailed(txs, j) then Skipped else if txs[j].amount > 0 then Success else Failed
  }

  ghost predicate FailedIdsRight(p: Progress, i: nat)
    requires i <= |p.txs|
  {
    forall id :: id in p.failedIds <==> exists k :: 0 <= k < i && p.txs[k].status.Failed? && p.txs[k].id == id
  }

  lemma StatusKept(txs: seq<BatchTx>, txs': seq<BatchTx>, j: nat)
    requires j < |txs| == |txs'| && StatusRight(txs, j) && forall k :: 0 <= k <= j ==> txs[k] == txs'[k]
    ensures StatusRight(txs', j)
  {
    assert DependencyFailed(txs', j) <==> DependencyFailed(txs, j);
  }

  lemma ContinuingTurn(p: Progress, i: nat, policy: RollbackPolicy)
    requires Continues(policy) && i < |p.txs| && !p.stop && FailedIdsRight(p, i)
    ensures var p' := Turn(p, i, policy);
            && |p'.txs| == |p.txs| && !p'.stop && p'.txs == p.txs[i := p'.txs[i]]
            && StatusRight(p'.txs, i) && FailedIdsRight(p', i + 1)
            && p'.gas - p.gas == GAS * (p'.success - p.success)
  {
    var p' := Turn(p, i, policy);
    assert p'.txs == p.txs[i := p'.txs[i]];
    DependencyCheckRight(p, i, p'.txs);
    TurnFailedIds(p, i, policy);
  }

  lemma DependencyCheckRight(p: Progress, i: nat, txs: seq<BatchTx>)
    requires i < |p.txs| == |txs| && FailedIdsRight(p, i)
    requires txs[i].dependsOn == p.txs[i].dependsOn && forall k :: 0 <= k < i ==> txs[k] == p.txs[k]
    ensures DependencyFailed(txs, i) <==> DepFailed(p.txs[i], p.failedIds)
  {
    if DepFailed(p.txs[i], p.failedIds) {
      var k :| 0 <= k < i && p.txs[k].status.Failed? && p.txs[k].id == p.txs[i].dependsOn.value;
      assert txs[k].status.Failed? && txs[i].dependsOn == Some(txs[k].id);
    }
    if DependencyFailed(txs, i) {
      var k :| 0 <= k < i && txs[k].status.Failed? && txs[i].dependsOn == Some(txs[k].id);
      assert p.txs[k].status.Failed? && p.txs[k].id == p.txs[i].dependsOn.value;
    }
  }

  lemma TurnFailedIds(p: Progress, i: nat, policy: RollbackPolicy)
    requires Continues(policy) && i < |p.txs| && !p.stop && FailedIdsRight(p, i)
    ensures |Turn(p, i, policy).txs| == |p.txs| && FailedIdsRight(Turn(p, i, policy), i + 1)
  {
    var p' := Turn(p, i, policy);
    forall id
      ensures id in p'.failedIds <==> exists k :: 0 <= k < i + 1 && p'.txs[k].status.Failed? && p'.txs[k].id == id
    {
      if id in p.failedIds {
        var k :| 0 <= k < i && p.txs[k].status.Failed? && p.txs[k].id == id;
        assert p'.txs[k] == p.txs[k];
      } else if id in p'.failedIds {
        assert p'.txs[i].status.Failed? && p'.txs[i].id == id;
      }
      if k :| 0 <= k < i + 1 && p'.txs[k].status.Failed? && p'.txs[k].id == id {
        assert k < i ==> p.txs[k] == p'.txs[k];
        assert k == i ==> p'.failedIds == p.failedIds + [id];
      }
    }
  }

  ghost predicate StatusesRight(txs: seq<BatchTx>, i: nat)
    requires i <= |txs|
  {
    forall j :: 0 <= j < i ==> StatusRight(txs, j)
  }

  lemma StatusesGrow(txs: seq<BatchTx>, txs': seq<BatchTx>, i: nat)
    requires i < |txs| == |txs'| && StatusesRight(txs, i) && StatusRight(txs', i)
    requires forall k :: 0 <= k < i ==> txs[k] == txs'[k]
    ensures StatusesRight(txs', i + 1)
  {
    forall j | 0 <= j < i
      ensures StatusRight(txs', j)
    {
      StatusKept(txs, txs', j);
    }
  }

  /** Under the continuing policies exactly those transactions are skipped whose direct dependency failed at
      an earlier position; the others succeed or fail by their amount, and gas is paid per success. */
  lemma {:induction false} ContinuingShape(s: seq<BatchTx>, i: nat, policy: RollbackPolicy)
    requires Continues(policy) && i <= |s|
    ensures var p := After(s, i, policy);
            !p.stop && FailedIdsRight(p, i) && p.gas == GAS * p.success && StatusesRight(p.txs, i)
  {
    if i > 0 {
      var p := After(s, i - 1, policy);
      ContinuingShape(s, i - 1, policy);
      ContinuingTurn(p, i - 1, policy);
      StatusesGrow(p.txs, Turn(p, i - 1, policy).txs, i - 1);
    }
  }

  // ---- Policies that stop at the first failure ----

  /** The position of the first transaction without an amount, or the number of transactions. */
  function FirstZero(s: seq<BatchTx>): (k: nat)
    ensures k <= |s|
    ensures forall j :: 0 <= j < k ==> s[j].amount > 0
    ensures k < |s| ==> s[k].amount == 0
  {
    if s == [] || s[0].amount == 0 then 0 else 1 + FirstZero(s[1..])
  }

  function Min(x: nat, y: nat): nat {
    if x < y then x else y
  }

  /** The status of the transaction at `j` once `i` have been met and the first to fail is `k`. */
  function StoppedStatus(i: nat, k: nat, policy: RollbackPolicy, j: nat): TxStatus {
    if i <= k then Success
    else if j == k then Failed
    else if j > k || policy.RollbackAll? then Skipped
    else Success
  }

  /** The loop's variables after `i` turns when the first to fail is `k`. */
  ghost predicate Stopping(p: Progress, i: nat, k: nat, policy: RollbackPolicy) {
    && i <= |p.txs|
    && (p.stop <==> i > k)
    && (i <= k ==> p.failedIds == [])
    && p.gas == GAS * Min(i, k)
    && forall j :: 0 <= j < i ==> p.txs[j].status == StoppedStatus(i, k, policy, j)
  }

  lemma StoppingTurn(p: Progress, i: nat, k: nat, policy: RollbackPolicy)
    requires !Continues(policy) && Stopping(p, i, k, policy) && i < |p.txs|
    requires i < k ==> p.txs[i].amount > 0
    requires i == k ==> p.txs[i].amount == 0
    ensures Stopping(Turn(p, i, policy), i + 1, k, policy)
  {
  }

  lemma {:induction false} StoppingShape(s: seq<BatchTx>, i: nat, policy: RollbackPolicy)
    requires !Continues(policy) && i <= |s|
    ensures Stopping(After(s, i, policy), i, FirstZero(s), policy)
  {
    if i > 0 {
      StoppingShape(s, i - 1, policy);
      AfterKeepsTxs(s, i - 1, policy);
      StoppingTurn(After(s, i - 1, policy), i - 1, FirstZero(s), policy);
    }
  }

  // ---- The finished batch ----

  /** After the pass: the transactions are the given ones with new statuses, none is pending, and the counters
      are the actual numbers and add up to the size of the batch, so none of them ever went below zero. */
  lemma FinishedCounts(s: seq<BatchTx>, policy: RollbackPolicy)
    ensures var p := After(s, |s|, policy);
            && (forall j :: 0 <= j < |s| ==> SameTx(p.txs[j], s[j]) && !p.txs[j].status.Pending?)
            && p.success == Count(p.txs, |s|, Success)
            && p.failure == Count(p.txs, |s|, Failed)
            && p.skipped == Count(p.txs, |s|, Skipped)
            && p.success + p.failure + p.skipped == |s|
  {
    var p := After(s, |s|, policy);
    AfterKeepsTxs(s, |s|, policy);
    AfterIsCounted(s, |s|, policy);
    CountsSumUp(p.txs, |s|);
    forall j | 0 <= j < |s|
      ensures !p.txs[j].status.Pending?
    {
      CountedAbsent(p.txs, |s|, Pending, j);
    }
  }

  /** StopOnFailure: successes, then at most one failure, then only skips. */
  lemma StopOnFailureShape(s: seq<BatchTx>)
    ensures var p := After(s, |s|, StopOnFailure);
            var k := FirstZero(s);
            forall j :: 0 <= j < |s| ==>
              p.txs[j].status == if j < k then Success else if j == k then Failed else Skipped
  {
    StoppingShape(s, |s|, StopOnFailure);
  }

  /** RollbackAll: all transactions succeed, or none does and one fails. */
  lemma RollbackAllShape(s: seq<BatchTx>)
    ensures var p := After(s, |s|, RollbackAll);
            var k := FirstZero(s);
            if k == |s| then forall j :: 0 <= j < |s| ==> p.txs[j].status == Success
            else forall j :: 0 <= j < |s| ==> p.txs[j].status == if j == k then Failed else Skipped
  {
    StoppingShape(s, |s|, RollbackAll);
  }

  /** Gas is 21000 per transaction that ran successfully, rolled back or not: per success, except under
      RollbackAll, where it is per transaction before the first failing one. It never exceeds the estimate. */
  lemma GasPaid(s: seq<BatchTx>, policy: RollbackPolicy)
    ensures var p := After(s, |s|, policy);
            && p.gas == GAS * (if policy.RollbackAll? then FirstZero(s) else p.success)
            && 0 <= p.gas <= GAS * |s|
  {
    FinishedCounts(s, policy);
    var p := After(s, |s|, policy);
    if Continues(policy) {
      ContinuingShape(s, |s|, policy);
    } else {
      StoppingShape(s, |s|, policy);
      if policy.StopOnFailure? {
        SuccessesBeforeZero(p.txs, FirstZero(s), |s|);
      }
    }
  }

  lemma {:induction false} SuccessesBeforeZero(txs: seq<BatchTx>, k: nat, i: nat)
    requires i <= |txs| && forall j :: 0 <= j < i ==> (txs[j].status.Success? <==> j < k)
    ensures Count(txs, i, Success) == Min(i, k)
  {
    if i > 0 {
      SuccessesBeforeZero(txs, k, i - 1);
    }
  }

  lemma {:induction false} SomeCounted(txs: seq<BatchTx>, i: nat, status: TxStatus, j: nat)
    requires j < i <= |txs| && txs[j].status == status
    ensures Count(txs, i, status) > 0
  {
    if j < i - 1 {
      SomeCounted(txs, i - 1, status, j);
    }
  }

  lemma {:induction false} NoneCounted(txs: seq<BatchTx>, i: nat, status: TxStatus)
    requires i <= |txs| && forall j :: 0 <= j < i ==> txs[j].status != status
    ensures Count(txs, i, status) == 0
  {
    if i > 0 {
      NoneCounted(txs, i - 1, status);
    }
  }

  /** Under every policy a batch finishes without failure exactly when every amount is positive. */
  lemma NoFailureIff(s: seq<BatchTx>, policy: RollbackPolicy)
    ensures After(s, |s|, policy).failure == 0 <==> forall j :: 0 <= j < |s| ==> s[j].amount > 0
  {
    var p := After(s, |s|, policy);
    var k := FirstZero(s);
    FinishedCounts(s, policy);
    if k < |s| {
      FirstZeroFails(s, policy);
    } else {
      forall j | 0 <= j < |s|
        ensures p.txs[j].status != Failed
      {
        PositiveNeverFails(s, policy, j);
      }
      NoneCounted(p.txs, |s|, Failed);
    }
  }

  lemma PositiveNeverFails(s: seq<BatchTx>, policy: RollbackPolicy, j: nat)
    requires FirstZero(s) == |s| && j < |s|
    ensures After(s, |s|, policy).txs[j].status != Failed
  {
    if Continues(policy) {
      ContinuingShape(s, |s|, policy);
      AfterKeepsTxs(s, |s|, policy);
      assert StatusRight(After(s, |s|, policy).txs, j);
    } else {
      StoppingShape(s, |s|, policy);
    }
  }

  lemma FirstZeroFails(s: seq<BatchTx>, policy: RollbackPolicy)
    requires FirstZero(s) < |s|
    ensures After(s, |s|, policy).failure > 0
  {
    var p := After(s, |s|, policy);
    var k := FirstZero(s);
    FinishedCounts(s, policy);
    if Continues(policy) {
      ContinuingShape(s, |s|, policy);
      AfterKeepsTxs(s, |s|, policy);
      assert StatusRight(p.txs, k);
      if DependencyFailed(p.txs, k) {
        var j :| 0 <= j < k && p.txs[j].status.Failed? && p.txs[k].dependsOn == Some(p.txs[j].id);
        SomeCounted(p.txs, |s|, Failed, j);
      } else {
        SomeCounted(p.txs, |s|, Failed, k);
      }
    } else {
      StoppingShape(s, |s|, policy);
      SomeCounted(p.txs, |s|, Failed, k);
    }
  }
}
