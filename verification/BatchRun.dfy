/** The execution loop of wallet/src/batch_executor.rs on one batch: stable sort by order, then one pass with
    direct dependency checks, counters and four failure policies. */
module BatchRun {
  import opened Wrappers

  datatype TxStatus = Pending | Success | Failed | Skipped

  datatype RollbackPolicy = NoPolicy | StopOnFailure | RollbackAll | ContinueOnFailure

  datatype BatchTx = BatchTx(
    id: string, description: string, txType: string, to: string, amount: nat, token: string,
    status: TxStatus, txHash: Option<string>, error: Option<string>, gasUsed: Option<nat>,
    order: nat, dependsOn: Option<string>)

  const GAS := 21000

  // ---- The stable sort ----

  ghost predicate Sorted(s: seq<BatchTx>) {
    forall i, j :: 0 <= i < j < |s| ==> s[i].order <= s[j].order
  }

  function Insert(t: BatchTx, s: seq<BatchTx>): seq<BatchTx> {
    if s == [] then [t]
    else if t.order < s[0].order then [t] + s
    else [s[0]] + Insert(t, s[1..])
  }

  /** `sort_by_key(|t| t.order)` */
  function SortByOrder(s: seq<BatchTx>): seq<BatchTx> {
    if s == [] then [] else Insert(s[|s| - 1], SortByOrder(s[..|s| - 1]))
  }

  /** The transactions of one order, in sequence. */
  function WithOrder(s: seq<BatchTx>, order: nat): seq<BatchTx> {
    if s == [] then [] else (if s[0].order == order then [s[0]] else []) + WithOrder(s[1..], order)
  }

  lemma {:induction false} InsertIsSorted(t: BatchTx, s: seq<BatchTx>)
    requires Sorted(s)
    ensures Sorted(Insert(t, s))
  {
    if s != [] && t.order >= s[0].order {
      InsertIsSorted(t, s[1..]);
      InsertLowest(t, s[1..], s[0].order);
    }
  }

  lemma {:induction false} InsertPermutes(t: BatchTx, s: seq<BatchTx>)
    ensures multiset(Insert(t, s)) == multiset(s) + multiset{t}
  {
    if s != [] && t.order >= s[0].order {
      InsertPermutes(t, s[1..]);
      assert s == [s[0]] + s[1..];
    }
  }

  lemma {:induction false} InsertLowest(t: BatchTx, s: seq<BatchTx>, low: nat)
    requires low <= t.order && forall x :: x in s ==> low <= x.order
    ensures forall x :: x in Insert(t, s) ==> low <= x.order
  {
    if s != [] && t.order >= s[0].order {
      InsertLowest(t, s[1..], low);
    }
  }

  lemma {:induction false} NoneBelow(s: seq<BatchTx>, order: nat)
    requires forall x :: x in s ==> order < x.order
    ensures WithOrder(s, order) == []
  {
    if s != [] {
      NoneBelow(s[1..], order);
    }
  }

  lemma {:induction false} InsertIsStable(t: BatchTx, s: seq<BatchTx>, order: nat)
    requires Sorted(s)
    ensures WithOrder(Insert(t, s), order) == WithOrder(s, order) + if t.order == order then [t] else []
  {
    if s == [] {
    } else if t.order < s[0].order {
      assert ([t] + s)[1..] == s;
      if t.order == order {
        NoneBelow(s, order);
      }
    } else {
      InsertIsStable(t, s[1..], order);
      assert ([s[0]] + Insert(t, s[1..]))[1..] == Insert(t, s[1..]);
    }
  }

  lemma {:induction false} WithOrderAppend(s: seq<BatchTx>, t: BatchTx, order: nat)
    ensures WithOrder(s + [t], order) == WithOrder(s, order) + if t.order == order then [t] else []
  {
    if s != [] {
      WithOrderAppend(s[1..], t, order);
      assert (s + [t])[1..] == s[1..] + [t];
    }
  }

  /** The sort is a permutation in ascending order that keeps the sequence of transactions of equal order. */
  lemma {:induction false} SortIsStable(s: seq<BatchTx>)
    ensures Sorted(SortByOrder(s))
    ensures multiset(SortByOrder(s)) == multiset(s) && |SortByOrder(s)| == |s|
    ensures forall order :: WithOrder(SortByOrder(s), order) == WithOrder(s, order)
  {
    if s != [] {
      var init, last := s[..|s| - 1], s[|s| - 1];
      SortIsStable(init);
      InsertIsSorted(last, SortByOrder(init));
      InsertPermutes(last, SortByOrder(init));
      assert s == init + [last];
      assert |multiset(SortByOrder(s))| == |multiset(s)|;
      forall order
        ensures WithOrder(SortByOrder(s), order) == WithOrder(s, order)
      {
        InsertIsStable(last, SortByOrder(init), order);
        WithOrderAppend(init, last, order);
      }
    }
  }

  // ---- One pass ----

  /** The variables of the loop. */
  datatype Progress = Progress(
    txs: seq<BatchTx>, success: int, failure: int, skipped: int, gas: int, failedIds: seq<string>, stop: bool)

  predicate DepFailed(tx: BatchTx, failedIds: seq<string>) {
    tx.dependsOn.Some? && tx.dependsOn.value in failedIds
  }

  function Skip(tx: BatchTx): BatchTx {
    tx.(status := Skipped)
  }

  function SkipForDependency(tx: BatchTx): BatchTx
    requires tx.dependsOn.Some?
  {
    tx.(status := Skipped, error := Some("Dependency " + tx.dependsOn.value + " failed"))
  }

  function Succeed(tx: BatchTx): BatchTx {
    tx.(status := Success, txHash := Some("0xhash_" + tx.id), gasUsed := Some(GAS))
  }

  function Fail(tx: BatchTx): BatchTx {
    tx.(status := Failed, error := Some("Zero amount"))
  }

  /** How many of the first `i` transactions have the status. */
  function Count(txs: seq<BatchTx>, i: nat, status: TxStatus): nat
    requires i <= |txs|
  {
    if i == 0 then 0 else Count(txs, i - 1, status) + if txs[i - 1].status == status then 1 else 0
  }

  /** The first `i` transactions with their successes turned into skips. */
  function RolledBack(txs: seq<BatchTx>, i: nat): (r: seq<BatchTx>)
    requires i <= |txs|
    ensures |r| == |txs|
    ensures forall j :: 0 <= j < |txs| ==> r[j] == if j < i && txs[j].status.Success? then Skip(txs[j]) else txs[j]
  {
    if i == 0 then txs
    else
      var r := RolledBack(txs, i - 1);
      if txs[i - 1].status.Success? then r[i - 1 := Skip(txs[i - 1])] else r
  }

  /** One turn of the loop. */
  function Turn(p: Progress, i: nat, policy: RollbackPolicy): Progress
    requires i < |p.txs|
  {
    var tx := p.txs[i];
    if p.stop then p.(txs := p.txs[i := Skip(tx)], skipped := p.skipped + 1)
    else if DepFailed(tx, p.failedIds) then p.(txs := p.txs[i := SkipForDependency(tx)], skipped := p.skipped + 1)
    else if tx.amount > 0 then p.(txs := p.txs[i := Succeed(tx)], gas := p.gas + GAS, success := p.success + 1)
    else
      var q := p.(txs := p.txs[i := Fail(tx)], failure := p.failure + 1, failedIds := p.failedIds + [tx.id]);
      match policy
      case StopOnFailure => q.(stop := true)
      case RollbackAll =>
        var rolled := Count(q.txs, i, Success);
        q.(txs := RolledBack(q.txs, i), success := q.success - rolled, skipped := q.skipped + rolled, stop := true)
      case _ => q
  }

  /** The loop's variables after `i` turns. */
  function After(s: seq<BatchTx>, i: nat, policy: RollbackPolicy): (p: Progress)
    requires i <= |s|
    ensures |p.txs| == |s|
  {
    if i == 0 then Progress(s, 0, 0, 0, 0, [], false) else Turn(After(s, i - 1, policy), i - 1, policy)
  }

  /** The inner loop of RollbackAll. */
  method RollBack(txs: seq<BatchTx>, i: nat) returns (txs': seq<BatchTx>, rolled: nat)
    requires i <= |txs|
    ensures txs' == RolledBack(txs, i) && rolled == Count(txs, i, Success)
  {
    txs', rolled := txs, 0;
    for j := 0 to i
      invariant txs' == RolledBack(txs, j) && rolled == Count(txs, j, Success)
    {
      if txs'[j].status == Success {
        txs' := txs'[j := txs'[j].(status := Skipped)];
        rolled := rolled + 1;
      }
    }
  }

  /** The body of the loop of `execute_batch`. */
  method TakeTurn(p: Progress, i: nat, policy: RollbackPolicy) returns (p': Progress)
    requires i < |p.txs|
    ensures p' == Turn(p, i, policy)
  {
    var Progress(txs, success, failure, skipped, gas, failedIds, stop) := p;
    var tx := txs[i];
    if stop {
      txs := txs[i := tx.(status := Skipped)];
      skipped := skipped + 1;
    } else if tx.dependsOn.Some? && tx.dependsOn.value in failedIds {
      txs := txs[i := tx.(status := Skipped, error := Some("Dependency " + tx.dependsOn.value + " failed"))];
      skipped := skipped + 1;
    } else if tx.amount > 0 {
      txs := txs[i := tx.(status := Success, txHash := Some("0xhash_" + tx.id), gasUsed := Some(GAS))];
      gas := gas + GAS;
      success := success + 1;
    } else {
      txs := txs[i := tx.(status := Failed, error := Some("Zero amount"))];
      failure := failure + 1;
      failedIds := failedIds + [tx.id];
      match policy
      case StopOnFailure => stop := true;
      case RollbackAll =>
        var rolled;
        txs, rolled := RollBack(txs, i);
        success, skipped := success - rolled, skipped + rolled;
        stop := true;
      case NoPolicy =>
      case ContinueOnFailure =>
    }
    p' := Progress(txs, success, failure, skipped, gas, failedIds, stop);
  }

  /** The loop of `execute_batch` over the sorted transactions. */
  method RunAll(s: seq<BatchTx>, policy: RollbackPolicy) returns (p: Progress)
    ensures p == After(s, |s|, policy)
  {
    p := Progress(s, 0, 0, 0, 0, [], false);
    for i := 0 to |s|
      invariant p == After(s, i, policy)
    {
      p := TakeTurn(p, i, policy);
    }
  }

  // ---- What the pass does to statuses and counters ----

  /** Only status, hash, error and gas may differ. */
  ghost predicate SameTx(t: BatchTx, t': BatchTx) {
    t == t'.(status := t.status, txHash := t.txHash, error := t.error, gasUsed := t.gasUsed)
  }

  ghost predicate Untouched(p: Progress, s: seq<BatchTx>, i: nat) {
    && |p.txs| == |s|
    && (forall j :: 0 <= j < |s| ==> SameTx(p.txs[j], s[j]))
    && (forall j :: i <= j < |s| ==> p.txs[j] == s[j])
  }

  lemma {:induction false} AfterKeepsTxs(s: seq<BatchTx>, i: nat, policy: RollbackPolicy)
    requires i <= |s|
    ensures Untouched(After(s, i, policy), s, i)
  {
    if i > 0 {
      AfterKeepsTxs(s, i - 1, policy);
    }
  }

  /** The counters are the actual numbers of the statuses among the transactions met so far. */
  ghost predicate Counted(p: Progress, i: nat)
    requires i <= |p.txs|
  {
    && p.success == Count(p.txs, i, Success)
    && p.failure == Count(p.txs, i, Failed)
    && p.skipped == Count(p.txs, i, Skipped)
    && Count(p.txs, i, Pending) == 0
  }

  lemma {:induction false} CountUnaffected(txs: seq<BatchTx>, txs': seq<BatchTx>, i: nat, status: TxStatus)
    requires i <= |txs| == |txs'| && forall j :: 0 <= j < i ==> txs[j] == txs'[j]
    ensures Count(txs, i, status) == Count(txs', i, status)
  {
    if i > 0 {
      CountUnaffected(txs, txs', i - 1, status);
    }
  }

  lemma {:induction false} CountRolledBack(txs: seq<BatchTx>, i: nat, k: nat)
    requires i <= k <= |txs|
    ensures var r := RolledBack(txs, k);
            && Count(r, i, Success) == 0
            && Count(r, i, Skipped) == Count(txs, i, Skipped) + Count(txs, i, Success)
            && Count(r, i, Failed) == Count(txs, i, Failed)
            && Count(r, i, Pending) == Count(txs, i, Pending)
  {
    if i > 0 {
      CountRolledBack(txs, i - 1, k);
    }
  }

  lemma CountReplaced(txs: seq<BatchTx>, i: nat, tx: BatchTx, status: TxStatus)
    requires i < |txs|
    ensures Count(txs[i := tx], i, status) == Count(txs, i, status)
    ensures Count(txs[i := tx], i + 1, status) == Count(txs, i, status) + if tx.status == status then 1 else 0
  {
    CountUnaffected(txs, txs[i := tx], i, status);
  }

  lemma AllCountsReplaced(txs: seq<BatchTx>, i: nat, tx: BatchTx)
    requires i < |txs|
    ensures forall status :: Count(txs[i := tx], i, status) == Count(txs, i, status)
    ensures forall status ::
              Count(txs[i := tx], i + 1, status) == Count(txs, i, status) + if tx.status == status then 1 else 0
  {
    forall status {
      CountReplaced(txs, i, tx, status);
    }
  }

  lemma {:induction false} AfterIsCounted(s: seq<BatchTx>, i: nat, policy: RollbackPolicy)
    requires i <= |s|
    ensures Counted(After(s, i, policy), i)
  {
    if i > 0 {
      AfterIsCounted(s, i - 1, policy);
      TurnCounts(After(s, i - 1, policy), i - 1, policy);
    }
  }

  lemma TurnCounts(p: Progress, i: nat, policy: RollbackPolicy)
    requires i < |p.txs| && Counted(p, i)
    ensures |Turn(p, i, policy).txs| == |p.txs| && Counted(Turn(p, i, policy), i + 1)
  {
    var tx := p.txs[i];
    if p.stop {
      AllCountsReplaced(p.txs, i, Skip(tx));
    } else if DepFailed(tx, p.failedIds) {
      AllCountsReplaced(p.txs, i, SkipForDependency(tx));
    } else if tx.amount > 0 {
      AllCountsReplaced(p.txs, i, Succeed(tx));
    } else {
      AllCountsReplaced(p.txs, i, Fail(tx));
      if policy.RollbackAll? {
        var txs := p.txs[i := Fail(tx)];
        CountRolledBack(txs, i, i);
        assert RolledBack(txs, i)[i] == Fail(tx);
      }
    }
  }

  lemma {:induction false} CountsSumUp(txs: seq<BatchTx>, i: nat)
    requires i <= |txs|
    ensures Count(txs, i, Pending) + Count(txs, i, Success) + Count(txs, i, Failed) + Count(txs, i, Skipped) == i
  {
    if i > 0 {
      CountsSumUp(txs, i - 1);
    }
  }

  lemma {:induction false} CountedAbsent(txs: seq<BatchTx>, i: nat, status: TxStatus, j: nat)
    requires j < i <= |txs| && Count(txs, i, status) == 0
    ensures txs[j].status != status
  {
    if j < i - 1 {
      CountedAbsent(txs, i - 1, status, j);
    }
  }
}
