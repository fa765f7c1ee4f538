/** What an executed batch records: the receipt of every transaction, the final status and the warnings. */
module BatchReceipts {
  import opened Wrappers
  import opened BatchRun
  import opened BatchPolicies
  import opened BatchExecutor

  // ---- The receipt of each transaction ----

  function Ran(t: BatchTx): BatchTx {
    t.(status := Success, txHash := Some("0xhash_" + t.id), gasUsed := Some(21000))
  }

  function Refused(t: BatchTx): BatchTx {
    t.(status := Failed, error := Some("Zero amount"))
  }

  function Blocked(t: BatchTx): BatchTx
    requires t.dependsOn.Some?
  {
    t.(status := Skipped, error := Some("Dependency " + t.dependsOn.value + " failed"))
  }

  /** What a policy that goes on makes of a transaction, by its final status. */
  ghost predicate ContinuingReceipt(t: BatchTx, given: BatchTx) {
    match t.status
    case Success => t == Ran(given)
    case Failed => t == Refused(given)
    case Skipped => given.dependsOn.Some? && t == Blocked(given)
    case Pending => false
  }

  lemma ContinuingTurnReceipt(p: Progress, i: nat, policy: RollbackPolicy)
    requires Continues(policy) && i < |p.txs| && !p.stop
    ensures ContinuingReceipt(Turn(p, i, policy).txs[i], p.txs[i])
    ensures forall j :: 0 <= j < i ==> Turn(p, i, policy).txs[j] == p.txs[j]
  {
  }

  /** Under the continuing policies a success carries its hash and its gas, a failure its reason, and a skipped
      transaction the dependency it was skipped for; nothing else of any transaction changes. */
  lemma {:induction false} ContinuingReceipts(s: seq<BatchTx>, i: nat, policy: RollbackPolicy)
    requires Continues(policy) && i <= |s|
    ensures forall j :: 0 <= j < i ==> ContinuingReceipt(After(s, i, policy).txs[j], s[j])
  {
    if i > 0 {
      var p := After(s, i - 1, policy);
      ContinuingReceipts(s, i - 1, policy);
      ContinuingShape(s, i - 1, policy);
      NotYetMet(s, i - 1, policy);
      ContinuingTurnReceipt(p, i - 1, policy);
    }
  }

  /** The transaction at `j` once `i` have been met, when the first without an amount is `k`. */
  function Stopped(t: BatchTx, i: nat, k: nat, policy: RollbackPolicy, j: nat): BatchTx {
    if j == k then Refused(t)
    else if j > k then t.(status := Skipped)
    else if i > k && policy.RollbackAll? then Ran(t).(status := Skipped)
    else Ran(t)
  }

  ghost predicate StoppedReceipts(p: Progress, s: seq<BatchTx>, i: nat, policy: RollbackPolicy) {
    |p.txs| == |s| && i <= |s| && forall j :: 0 <= j < i ==> p.txs[j] == Stopped(s[j], i, FirstZero(s), policy, j)
  }

  ghost predicate TurnReady(p: Progress, s: seq<BatchTx>, i: nat, policy: RollbackPolicy) {
    && !Continues(policy) && i < |s| && StoppedReceipts(p, s, i, policy)
    && Stopping(p, i, FirstZero(s), policy) && p.txs[i] == s[i]
  }

  lemma TurnBeforeFailure(p: Progress, s: seq<BatchTx>, i: nat, policy: RollbackPolicy)
    requires TurnReady(p, s, i, policy) && i < FirstZero(s)
    ensures StoppedReceipts(Turn(p, i, policy), s, i + 1, policy)
  {
    assert Turn(p, i, policy).txs == p.txs[i := Ran(s[i])];
  }

  lemma TurnAtFailure(p: Progress, s: seq<BatchTx>, i: nat, policy: RollbackPolicy)
    requires TurnReady(p, s, i, policy) && i == FirstZero(s)
    ensures StoppedReceipts(Turn(p, i, policy), s, i + 1, policy)
  {
    var failed := p.txs[i := Refused(s[i])];
    assert Turn(p, i, policy).txs == if policy.RollbackAll? then RolledBack(failed, i) else failed;
  }

  lemma TurnAfterFailure(p: Progress, s: seq<BatchTx>, i: nat, policy: RollbackPolicy)
    requires TurnReady(p, s, i, policy) && i > FirstZero(s)
    ensures StoppedReceipts(Turn(p, i, policy), s, i + 1, policy)
  {
    assert Turn(p, i, policy).txs == p.txs[i := s[i].(status := Skipped)];
  }

  lemma ReadyTurn(p: Progress, s: seq<BatchTx>, i: nat, policy: RollbackPolicy)
    requires TurnReady(p, s, i, policy)
    ensures StoppedReceipts(Turn(p, i, policy), s, i + 1, policy)
  {
    if i < FirstZero(s) {
      TurnBeforeFailure(p, s, i, policy);
    } else if i == FirstZero(s) {
      TurnAtFailure(p, s, i, policy);
    } else {
      TurnAfterFailure(p, s, i, policy);
    }
  }

  lemma TurnIsReady(s: seq<BatchTx>, i: nat, policy: RollbackPolicy)
    requires !Continues(policy) && i < |s| && StoppedReceipts(After(s, i, policy), s, i, policy)
    ensures TurnReady(After(s, i, policy), s, i, policy)
  {
    StoppingShape(s, i, policy);
    NotYetMet(s, i, policy);
  }

  lemma NotYetMet(s: seq<BatchTx>, i: nat, policy: RollbackPolicy)
    requires i < |s|
    ensures After(s, i, policy).txs[i] == s[i]
  {
    AfterKeepsTxs(s, i, policy);
  }

  /** Under the stopping policies the transactions before the first without an amount ran, and under RollbackAll keep
      their hash and gas though they count as skipped; that one failed; those after it were not looked at. */
  lemma {:induction false} StoppingReceipts(s: seq<BatchTx>, i: nat, policy: RollbackPolicy)
    requires !Continues(policy) && i <= |s|
    ensures StoppedReceipts(After(s, i, policy), s, i, policy)
  {
    if i > 0 {
      StoppingReceipts(s, i - 1, policy);
      TurnIsReady(s, i - 1, policy);
      ReadyTurn(After(s, i - 1, policy), s, i - 1, policy);
    }
  }

  // ---- The job and the result ----

  ghost predicate AnyWith(txs: seq<BatchTx>, status: TxStatus) {
    exists j :: 0 <= j < |txs| && txs[j].status == status
  }

  lemma CountedIff(txs: seq<BatchTx>, status: TxStatus)
    ensures Count(txs, |txs|, status) > 0 <==> AnyWith(txs, status)
  {
    if AnyWith(txs, status) {
      var j :| 0 <= j < |txs| && txs[j].status == status;
      SomeCounted(txs, |txs|, status, j);
    } else {
      NoneCounted(txs, |txs|, status);
    }
  }

  /** The final status from the executed transactions: Completed without a failure, PartialFailure with failures and
      successes, and with failures only RolledBack under RollbackAll and Failed otherwise. */
  lemma FinalStatusIff(job: BatchJob, started: string, ended: string)
    ensures var e := Executed(job, started, ended);
            && (e.status.Completed? <==> !AnyWith(e.transactions, Failed))
            && (e.status.PartialFailure? <==> AnyWith(e.transactions, Failed) && AnyWith(e.transactions, Success))
            && (e.status.RolledBackBatch? <==>
                  && AnyWith(e.transactions, Failed) && !AnyWith(e.transactions, Success)
                  && job.rollbackPolicy.RollbackAll?)
            && (e.status.FailedBatch? <==>
                  && AnyWith(e.transactions, Failed) && !AnyWith(e.transactions, Success)
                  && !job.rollbackPolicy.RollbackAll?)
  {
    var txs := Executed(job, started, ended).transactions;
    SortKeepsLength(job.transactions);
    FinishedCounts(SortByOrder(job.transactions), job.rollbackPolicy);
    CountedIff(txs, Failed);
    CountedIff(txs, Success);
  }

  /** Executing sets the two times, the transactions, the status and the totals of the job, and the result repeats
      them; everything else of the job stays. */
  lemma ExecutedRecord(job: BatchJob, started: string, ended: string, id: string)
    ensures var e, r := Executed(job, started, ended), ResultOf(job, id);
            && e == BatchJob(job.id, job.name, e.transactions, r.status, job.rollbackPolicy, job.createdAt,
                             Some(started), Some(ended), r.totalGas, r.completed, r.failed)
            && r.batchId == id
  {
  }

  // ---- Warnings ----

  function ZeroWarning(t: BatchTx): string {
    "Transaction " + t.id + " has zero amount"
  }

  lemma {:induction false} ZeroWarningsAre(txs: seq<BatchTx>, i: nat)
    requires i <= |txs|
    ensures forall w :: w in ZeroWarnings(txs, i) <==>
                        exists j :: 0 <= j < i && txs[j].amount == 0 && w == ZeroWarning(txs[j])
  {
    if i > 0 {
      ZeroWarningsAre(txs, i - 1);
    }
  }

  /** Validation warns of every transaction without an amount, by its id, and of an empty batch, and of nothing
      else. */
  lemma WarningsAre(txs: seq<BatchTx>, w: string)
    ensures w in Warnings(txs) <==>
            || (txs == [] && w == "Batch has no transactions")
            || exists j :: 0 <= j < |txs| && txs[j].amount == 0 && w == ZeroWarning(txs[j])
  {
    ZeroWarningsAre(txs, |txs|);
  }
}
