/** The batch store of wallet/src/batch_executor.rs: drafts, validation, execution and rollback. */
module BatchExecutor {
  import opened Wrappers
  import opened Text
  import opened BatchRun
  import opened BatchPolicies

  datatype BatchStatus = Draft | Validating | Executing | Completed | PartialFailure | RolledBackBatch | FailedBatch

  datatype BatchJob = BatchJob(
    id: string, name: string, transactions: seq<BatchTx>, status: BatchStatus, rollbackPolicy: RollbackPolicy,
    createdAt: string, startedAt: Option<string>, completedAt: Option<string>,
    totalGas: int, successCount: int, failureCount: int)

  datatype BatchResult = BatchResult(
    batchId: string, status: BatchStatus, completed: int, failed: int, skipped: int, totalGas: int)

  datatype BatchError =
    | BatchNotFound(id: string) | TxNotFound(id: string) | NotDraft(id: string) | NotExecutable(id: string)
    | DependencyNotFound(tx: string, dep: string)

  function BatchId(n: nat): string {
    "batch-" + Decimal(n)
  }

  lemma BatchIdInjective(n: nat, m: nat)
    requires BatchId(n) == BatchId(m)
    ensures n == m
  {
    assert Decimal(n) == BatchId(n)[6..] && Decimal(m) == BatchId(m)[6..];
    DecimalInjective(n, m);
  }

  predicate MayExecute(status: BatchStatus) {
    status.Draft? || status.Validating?
  }

  function FinalStatus(p: Progress, policy: RollbackPolicy): BatchStatus {
    if p.failure == 0 then Completed
    else if p.success > 0 then PartialFailure
    else if policy.RollbackAll? then RolledBackBatch
    else FailedBatch
  }

  /** The loop's variables at the end of executing a job. */
  function Outcome(job: BatchJob): Progress {
    SortKeepsLength(job.transactions);
    After(SortByOrder(job.transactions), |job.transactions|, job.rollbackPolicy)
  }

  lemma SortKeepsLength(s: seq<BatchTx>)
    ensures |SortByOrder(s)| == |s|
  {
    SortIsStable(s);
  }

  function Executed(job: BatchJob, started: string, ended: string): BatchJob {
    var p := Outcome(job);
    job.(transactions := p.txs, status := FinalStatus(p, job.rollbackPolicy), startedAt := Some(started),
         completedAt := Some(ended), totalGas := p.gas, successCount := p.success, failureCount := p.failure)
  }

  function ResultOf(job: BatchJob, id: string): BatchResult {
    var p := Outcome(job);
    BatchResult(id, FinalStatus(p, job.rollbackPolicy), p.success, p.failure, p.skipped, p.gas)
  }

  // ---- Validation ----

  predicate KnownId(txs: seq<BatchTx>, id: string) {
    exists k :: 0 <= k < |txs| && txs[k].id == id
  }

  predicate DependencyKnown(txs: seq<BatchTx>, i: nat)
    requires i < |txs|
  {
    txs[i].dependsOn.Some? ==> KnownId(txs, txs[i].dependsOn.value)
  }

  function ZeroWarnings(txs: seq<BatchTx>, i: nat): seq<string>
    requires i <= |txs|
  {
    if i == 0 then []
    else ZeroWarnings(txs, i - 1)
         + if txs[i - 1].amount == 0 then ["Transaction " + txs[i - 1].id + " has zero amount"] else []
  }

  function Warnings(txs: seq<BatchTx>): seq<string> {
    ZeroWarnings(txs, |txs|) + if txs == [] then ["Batch has no transactions"] else []
  }

  /** The error names the first transaction whose dependency is not in the batch, and that dependency. */
  ghost predicate NamesFirstMissing(error: BatchError, txs: seq<BatchTx>) {
    exists i :: 0 <= i < |txs| && txs[i].dependsOn.Some? && !DependencyKnown(txs, i)
                && (forall j :: 0 <= j < i ==> DependencyKnown(txs, j))
                && error == DependencyNotFound(txs[i].id, txs[i].dependsOn.value)
  }

  /** The validation loop: the warnings, or the first transaction whose dependency is not in the batch. */
  method CheckBatch(txs: seq<BatchTx>) returns (r: Result<seq<string>, BatchError>)
    ensures r.Ok? <==> forall i :: 0 <= i < |txs| ==> DependencyKnown(txs, i)
    ensures r.Ok? ==> r.value == Warnings(txs)
    ensures r.Err? ==> NamesFirstMissing(r.error, txs)
  {
    var warnings: seq<string> := [];
    for i := 0 to |txs|
      invariant warnings == ZeroWarnings(txs, i)
      invariant forall j :: 0 <= j < i ==> DependencyKnown(txs, j)
    {
      if txs[i].dependsOn.Some? && !KnownId(txs, txs[i].dependsOn.value) {
        assert !DependencyKnown(txs, i);
        return Err(DependencyNotFound(txs[i].id, txs[i].dependsOn.value));
      }
      if txs[i].amount == 0 {
        warnings := warnings + ["Transaction " + txs[i].id + " has zero amount"];
      }
    }
    if txs == [] {
      warnings := warnings + ["Batch has no transactions"];
    }
    return Ok(warnings);
  }

  lemma {:induction false} ZeroWarned(txs: seq<BatchTx>, i: nat, j: nat)
    requires j < i <= |txs| && ZeroWarnings(txs, i) == []
    ensures txs[j].amount > 0
  {
    if j < i - 1 {
      ZeroWarned(txs, i - 1, j);
    }
  }

  // ---- Executed jobs ----

  /** Under every policy the executed transactions are the given ones, stably sorted by order, with new
      outcomes, none of them pending. */
  lemma ExecutedTransactions(job: BatchJob, started: string, ended: string)
    ensures var s := SortByOrder(job.transactions);
            var txs := Executed(job, started, ended).transactions;
            && |txs| == |job.transactions| == |s| && Sorted(s) && multiset(s) == multiset(job.transactions)
            && forall j :: 0 <= j < |s| ==> SameTx(txs[j], s[j]) && !txs[j].status.Pending?
  {
    SortIsStable(job.transactions);
    FinishedCounts(SortByOrder(job.transactions), job.rollbackPolicy);
  }

  /** Under every policy the reported counts are the actual numbers of the statuses and add up to the size of
      the batch, and gas stays within the estimate. */
  lemma ExecutedCounts(job: BatchJob, started: string, ended: string)
    ensures var txs := Executed(job, started, ended).transactions;
            var r := ResultOf(job, job.id);
            && r.completed == Count(txs, |txs|, Success) && r.failed == Count(txs, |txs|, Failed)
            && r.skipped == Count(txs, |txs|, Skipped)
            && r.completed + r.failed + r.skipped == |job.transactions|
            && 0 <= r.totalGas <= GAS * |job.transactions|
  {
    var s := SortByOrder(job.transactions);
    SortKeepsLength(job.transactions);
    FinishedCounts(s, job.rollbackPolicy);
    GasPaid(s, job.rollbackPolicy);
  }

  /** Under every policy the batch is Completed exactly when every amount is positive; under RollbackAll any
      other batch ends RolledBack with no success; and no executed batch can be executed again. */
  lemma ExecutedStatus(job: BatchJob, started: string, ended: string)
    ensures var s := SortByOrder(job.transactions);
            var e := Executed(job, started, ended);
            && (e.status.Completed? <==> forall j :: 0 <= j < |s| ==> s[j].amount > 0)
            && (job.rollbackPolicy.RollbackAll? && !e.status.Completed? ==>
                  e.status.RolledBackBatch? && e.successCount == 0)
            && !MayExecute(e.status)
  {
    var s := SortByOrder(job.transactions);
    SortKeepsLength(job.transactions);
    NoFailureIff(s, job.rollbackPolicy);
    if job.rollbackPolicy.RollbackAll? && FirstZero(s) < |s| {
      NoSuccessAfterRollback(s);
    }
  }

  lemma NoSuccessAfterRollback(s: seq<BatchTx>)
    requires FirstZero(s) < |s|
    ensures After(s, |s|, RollbackAll).success == 0
  {
    FinishedCounts(s, RollbackAll);
    RollbackAllShape(s);
    NoneCounted(After(s, |s|, RollbackAll).txs, |s|, Success);
  }

  /** A batch that validates without a warning executes completely, with every transaction successful and
      exactly the estimated gas, under every policy. */
  lemma CleanBatchCompletes(job: BatchJob, started: string, ended: string)
    requires Warnings(job.transactions) == []
    ensures var e := Executed(job, started, ended);
            && e.status.Completed? && e.successCount == |job.transactions| && e.totalGas == GAS * |job.transactions|
  {
    var s := SortByOrder(job.transactions);
    SortIsStable(job.transactions);
    forall j | 0 <= j < |s|
      ensures s[j].amount > 0
    {
      assert s[j] in multiset(job.transactions);
      var i :| 0 <= i < |job.transactions| && job.transactions[i] == s[j];
      ZeroWarned(job.transactions, |job.transactions|, i);
    }
    AllPositiveRun(s, job.rollbackPolicy);
    NoFailureIff(s, job.rollbackPolicy);
  }

  lemma AllPositiveRun(s: seq<BatchTx>, policy: RollbackPolicy)
    requires forall j :: 0 <= j < |s| ==> s[j].amount > 0
    ensures After(s, |s|, policy).success == |s| && After(s, |s|, policy).gas == GAS * |s|
  {
    var p := After(s, |s|, policy);
    FinishedCounts(s, policy);
    NoFailureIff(s, policy);
    assert FirstZero(s) == |s|;
    forall j | 0 <= j < |s|
      ensures p.txs[j].status != Skipped
    {
      if Continues(policy) {
        ContinuingShape(s, |s|, policy);
        assert StatusRight(p.txs, j);
        if k :| 0 <= k < j && p.txs[k].status.Failed? {
          CountedAbsent(p.txs, |s|, Failed, k);
        }
      } else {
        StoppingShape(s, |s|, policy);
      }
    }
    NoneCounted(p.txs, |s|, Skipped);
    GasPaid(s, policy);
  }

  // ---- The store ----

  /** `position`: the first transaction with the id, or the number of transactions. */
  function Position(txs: seq<BatchTx>, id: string): (k: nat)
    ensures k <= |txs| && (k < |txs| ==> txs[k].id == id)
    ensures forall j :: 0 <= j < k ==> txs[j].id != id
  {
    if txs == [] || txs[0].id == id then 0 else 1 + Position(txs[1..], id)
  }

  ghost predicate DistinctResults(results: seq<BatchResult>) {
    forall i, j :: 0 <= i < j < |results| ==> results[i].batchId != results[j].batchId
  }

  class BatchExecutor {
    var jobs: map<string, BatchJob>
    var results: seq<BatchResult>

    /** New ids are unused; every result belongs to a batch that can no longer execute; and no batch has two
        results. Every method keeps this, so it holds after any run of calls. */
    ghost predicate Valid()
      reads this
    {
      && (forall n :: n > |jobs| ==> BatchId(n) !in jobs)
      && (forall i :: 0 <= i < |results| ==>
            results[i].batchId in jobs && !MayExecute(jobs[results[i].batchId].status))
      && DistinctResults(results)
    }

    constructor ()
      ensures Valid() && jobs == map[] && results == []
    {
      jobs, results := map[], [];
    }

    method CreateBatch(name: string, policy: RollbackPolicy, now: string) returns (id: string)
      requires Valid()
      modifies this
      ensures Valid() && results == old(results)
      ensures id !in old(jobs) && id == "batch-" + Decimal(|old(jobs)| + 1)
      ensures jobs == old(jobs)[id := BatchJob(id, name, [], Draft, policy, now, None, None, 0, 0, 0)]
    {
      id := BatchId(|jobs| + 1);
      ghost var before := jobs;
      jobs := jobs[id := BatchJob(id, name, [], Draft, policy, now, None, None, 0, 0, 0)];
      assert jobs.Keys == before.Keys + {id};
      forall n | n > |jobs|
        ensures BatchId(n) !in jobs
      {
        if BatchId(n) == id {
          BatchIdInjective(n, |before| + 1);
        }
      }
    }

    method AddTx(id: string, tx: BatchTx) returns (r: Result<(), BatchError>)
      requires Valid()
      modifies this
      ensures Valid() && results == old(results)
      ensures r == if id !in old(jobs) then Err(BatchNotFound(id))
                   else if !old(jobs)[id].status.Draft? then Err(NotDraft(id)) else Ok(())
      ensures r.Err? ==> jobs == old(jobs)
      ensures r.Ok? ==>
                jobs == old(jobs)[id := old(jobs)[id].(transactions := old(jobs)[id].transactions + [tx])]
    {
      if id !in jobs {
        return Err(BatchNotFound(id));
      }
      if jobs[id].status != Draft {
        return Err(NotDraft(id));
      }
      SetJob(id, jobs[id].(transactions := jobs[id].transactions + [tx]));
      return Ok(());
    }

    method RemoveTx(id: string, txId: string) returns (r: Result<BatchTx, BatchError>)
      requires Valid()
      modifies this
      ensures Valid() && results == old(results)
      ensures id !in old(jobs) ==> r == Err(BatchNotFound(id))
      ensures id in old(jobs) && !old(jobs)[id].status.Draft? ==> r == Err(NotDraft(id))
      ensures r.Err? ==> jobs == old(jobs)
      ensures id in old(jobs) && old(jobs)[id].status.Draft? ==>
                var txs := old(jobs)[id].transactions;
                var k := Position(txs, txId);
                if k == |txs| then r == Err(TxNotFound(txId))
                else r == Ok(txs[k]) && jobs == old(jobs)[id := old(jobs)[id].(transactions := txs[..k] + txs[k + 1..])]
    {
      if id !in jobs {
        return Err(BatchNotFound(id));
      }
      if jobs[id].status != Draft {
        return Err(NotDraft(id));
      }
      var txs := jobs[id].transactions;
      var k := Position(txs, txId);
      if k == |txs| {
        return Err(TxNotFound(txId));
      }
      SetJob(id, jobs[id].(transactions := txs[..k] + txs[k + 1..]));
      return Ok(txs[k]);
    }

    method ReorderTx(id: string, txId: string, newOrder: nat) returns (r: Result<(), BatchError>)
      requires Valid()
      modifies this
      ensures Valid() && results == old(results)
      ensures id !in old(jobs) ==> r == Err(BatchNotFound(id))
      ensures id in old(jobs) && !old(jobs)[id].status.Draft? ==> r == Err(NotDraft(id))
      ensures r.Err? ==> jobs == old(jobs)
      ensures id in old(jobs) && old(jobs)[id].status.Draft? ==>
                var txs := old(jobs)[id].transactions;
                var k := Position(txs, txId);
                if k == |txs| then r == Err(TxNotFound(txId))
                else
                  && r == Ok(())
                  && jobs == old(jobs)[id := old(jobs)[id].(transactions := txs[k := txs[k].(order := newOrder)])]
    {
      if id !in jobs {
        return Err(BatchNotFound(id));
      }
      if jobs[id].status != Draft {
        return Err(NotDraft(id));
      }
      var txs := jobs[id].transactions;
      var k := Position(txs, txId);
      if k == |txs| {
        return Err(TxNotFound(txId));
      }
      SetJob(id, jobs[id].(transactions := txs[k := txs[k].(order := newOrder)]));
      return Ok(());
    }

    /** Replaces a job without making it executable again. */
    method SetJob(id: string, job: BatchJob)
      requires Valid() && id in jobs && (MayExecute(job.status) ==> MayExecute(jobs[id].status))
      modifies this
      ensures Valid() && results == old(results) && jobs == old(jobs)[id := job]
    {
      ghost var before := jobs;
      jobs := jobs[id := job];
      assert jobs.Keys == before.Keys;
    }

    method ValidateBatch(id: string) returns (r: Result<seq<string>, BatchError>)
      requires Valid()
      modifies this
      ensures Valid() && results == old(results)
      ensures id !in old(jobs) ==> r == Err(BatchNotFound(id))
      ensures id in old(jobs) && !old(jobs)[id].status.Draft? ==> r == Err(NotDraft(id))
      ensures id in old(jobs) && old(jobs)[id].status.Draft? ==>
                var txs := old(jobs)[id].transactions;
                if forall i :: 0 <= i < |txs| ==> DependencyKnown(txs, i) then r == Ok(Warnings(txs))
                else r.Err? && NamesFirstMissing(r.error, txs)
      ensures jobs == if r.Ok? then old(jobs)[id := old(jobs)[id].(status := Validating)] else old(jobs)
    {
      if id !in jobs {
        return Err(BatchNotFound(id));
      }
      if jobs[id].status != Draft {
        return Err(NotDraft(id));
      }
      r := CheckBatch(jobs[id].transactions);
      if r.Ok? {
        SetJob(id, jobs[id].(status := Validating));
      }
    }

    method ExecuteBatch(id: string, started: string, ended: string) returns (r: Result<BatchResult, BatchError>)
      requires Valid()
      modifies this
      ensures Valid()
      ensures id !in old(jobs) ==> r == Err(BatchNotFound(id))
      ensures id in old(jobs) && !MayExecute(old(jobs)[id].status) ==> r == Err(NotExecutable(id))
      ensures r.Err? ==> jobs == old(jobs) && results == old(results)
      ensures id in old(jobs) && MayExecute(old(jobs)[id].status) ==>
                && r == Ok(ResultOf(old(jobs)[id], id))
                && jobs == old(jobs)[id := Executed(old(jobs)[id], started, ended)]
                && results == old(results) + [r.value]
    {
      if id !in jobs {
        return Err(BatchNotFound(id));
      }
      if jobs[id].status != Draft && jobs[id].status != Validating {
        return Err(NotExecutable(id));
      }
      var job := jobs[id];
      SortKeepsLength(job.transactions);
      var p := RunAll(SortByOrder(job.transactions), job.rollbackPolicy);
      var status := if p.failure == 0 then Completed
                    else if p.success > 0 then PartialFailure
                    else if job.rollbackPolicy == RollbackAll then RolledBackBatch
                    else FailedBatch;
      var done := job.(transactions := p.txs, status := status, startedAt := Some(started), completedAt := Some(ended),
                       totalGas := p.gas, successCount := p.success, failureCount := p.failure);
      var result := BatchResult(id, status, p.success, p.failure, p.skipped, p.gas);
      SetJob(id, done);
      results := results + [result];
      r := Ok(result);
    }

    method RollbackBatch(id: string) returns (r: Result<(), BatchError>)
      requires Valid()
      modifies this
      ensures Valid() && results == old(results)
      ensures r == if id in old(jobs) then Ok(()) else Err(BatchNotFound(id))
      ensures r.Err? ==> jobs == old(jobs)
      ensures r.Ok? ==>
                && id in jobs && |jobs[id].transactions| == |old(jobs)[id].transactions|
                && (forall j :: 0 <= j < |jobs[id].transactions| ==>
                      jobs[id].transactions[j] == old(jobs)[id].transactions[j].(status := Skipped))
                && jobs == old(jobs)[id := old(jobs)[id].(status := RolledBackBatch,
                                                          transactions := jobs[id].transactions)]
    {
      if id !in jobs {
        return Err(BatchNotFound(id));
      }
      var txs := jobs[id].transactions;
      for j := 0 to |txs|
        invariant |txs| == |jobs[id].transactions|
        invariant forall k :: 0 <= k < |txs| ==>
                    txs[k] == if k < j then Skip(jobs[id].transactions[k]) else jobs[id].transactions[k]
      {
        txs := txs[j := txs[j].(status := Skipped)];
      }
      SetJob(id, jobs[id].(status := RolledBackBatch, transactions := txs));
      return Ok(());
    }

    /** 21000 per transaction, an upper bound of what execution charges. */
    method EstimateGas(id: string) returns (r: Result<int, BatchError>)
      ensures r.Ok? <==> id in jobs
      ensures r.Err? ==> r.error == BatchNotFound(id)
      ensures r.Ok? ==> 0 <= ResultOf(jobs[id], id).totalGas <= r.value == GAS * |jobs[id].transactions|
    {
      if id !in jobs {
        return Err(BatchNotFound(id));
      }
      ExecutedCounts(jobs[id], "", "");
      return Ok(|jobs[id].transactions| * 21000);
    }
  }
}
