/** When do devices that use KeepNewer converge? A run converges as long as no merge lowers the merging
    device's own clock entry; SyncDivergence shows that the first merge that does can always be continued to
    a split. */
module SyncConvergence {
  import opened VectorClocks
  import opened AddressBookSync
  import opened MergeLaws
  import opened SyncNetwork

  /** Any two copies of a contact with equal clocks, in present or past books, have equal content. */
  ghost predicate Converged(n: Net) {
    forall b: Book, b': Book :: b in n.past && b' in n.past ==> Consistent(b, b')
  }

  // ---- Causal histories ----

  /** The writes a copy's clock accounts for. */
  ghost predicate InHistory(c: SyncedContact, w: Write) {
    w.address == c.address && 1 <= w.count <= c.clock.Get(w.device)
  }

  /** The copy's content is the latest write of its clock's causal history. */
  ghost predicate IsLatest(log: map<Write, SyncedContact>, c: SyncedContact) {
    && (exists w :: InHistory(c, w) && w in log && log[w] == Content(c))
    && (forall w :: InHistory(c, w) ==> w in log && log[w].updatedAt <= c.updatedAt)
  }

  ghost predicate DistinctStamps(log: map<Write, SyncedContact>) {
    forall w, w' :: w in log && w' in log && w.address == w'.address && log[w].updatedAt == log[w'].updatedAt ==>
      w == w'
  }

  ghost predicate LatestBook(log: map<Write, SyncedContact>, b: Book) {
    forall a :: a in b ==> b[a].address == a && IsLatest(log, b[a])
  }

  /** The log holds exactly the writes the devices' own entries count. */
  ghost predicate LogExact(n: Net) {
    forall w :: w in n.log <==> 1 <= w.count <= n.Own(w.device, w.address)
  }

  // The trigger keeps the solver from passing from any write to its author's book and from there to a write.
  ghost predicate LatestBooks(n: Net) {
    forall b {:trigger LatestBook(n.log, b)} :: b in n.past ==> LatestBook(n.log, b)
  }

  /** The invariant of guarded runs. */
  ghost predicate Historic(n: Net) {
    CausalBound(n) && DistinctStamps(n.log) && LogExact(n) && LatestBooks(n)
  }

  lemma EqualClocksEqualContent(log: map<Write, SyncedContact>, c: SyncedContact, c': SyncedContact)
    requires DistinctStamps(log) && IsLatest(log, c) && IsLatest(log, c')
    requires c.address == c'.address && SameClock(c.clock, c'.clock)
    ensures Content(c) == Content(c')
  {
    var w :| InHistory(c, w) && w in log && log[w] == Content(c);
    var w' :| InHistory(c', w') && w' in log && log[w'] == Content(c');
    assert InHistory(c', w) && InHistory(c, w');
  }

  lemma HistoricConverged(n: Net)
    requires Historic(n)
    ensures Converged(n)
  {
    forall b: Book, b': Book | b in n.past && b' in n.past
      ensures Consistent(b, b')
    {
      LatestBooksConsistent(n.log, b, b');
    }
  }

  lemma LatestBooksConsistent(log: map<Write, SyncedContact>, b: Book, b': Book)
    requires DistinctStamps(log) && LatestBook(log, b) && LatestBook(log, b')
    ensures Consistent(b, b')
  {
    forall a | a in b && a in b' && SameClock(b[a].clock, b'[a].clock)
      ensures Content(b[a]) == Content(b'[a])
    {
      EqualClocksEqualContent(log, b[a], b'[a]);
    }
  }

  // ---- Each step keeps the invariant ----

  lemma MergeKeepsLatest(log: map<Write, SyncedContact>, l: SyncedContact, r: SyncedContact)
    requires IsLatest(log, l) && IsLatest(log, r) && l.address == r.address
    ensures IsLatest(log, MergeCopy(l, r, KeepNewer))
  {
    var m := MergeCopy(l, r, KeepNewer);
    MergedClockIsJoinIff(l, r, KeepNewer);
    if !TakesRemote(l, r, KeepNewer) {
      var w :| InHistory(l, w) && w in log && log[w] == Content(l);
      assert InHistory(m, w) && Content(m) == Content(l);
      forall w | InHistory(m, w)
        ensures w in log && log[w].updatedAt <= m.updatedAt
      {
        if l.clock.Dominates(r.clock) {
          assert InHistory(l, w);
        } else {
          assert InHistory(l, w) || InHistory(r, w);
        }
      }
    }
  }

  lemma MergedCopyIsLatest(log: map<Write, SyncedContact>, local: Book, remote: Book, a: Address)
    requires LatestBook(log, local) && LatestBook(log, remote) && (a in local || a in remote)
    ensures var c := Merged(local, remote, KeepNewer)[a];
            c.address == a && IsLatest(log, c)
  {
    if a in local && a in remote {
      assert Merged(local, remote, KeepNewer)[a] == MergeCopy(local[a], remote[a], KeepNewer);
      MergeKeepsLatest(log, local[a], remote[a]);
    } else if a in local {
      assert Merged(local, remote, KeepNewer)[a] == local[a];
    } else {
      assert Merged(local, remote, KeepNewer)[a] == remote[a];
    }
  }

  lemma MergedBookIsLatest(log: map<Write, SyncedContact>, local: Book, remote: Book)
    requires LatestBook(log, local) && LatestBook(log, remote)
    ensures LatestBook(log, Merged(local, remote, KeepNewer))
  {
    forall a | a in Merged(local, remote, KeepNewer)
      ensures Merged(local, remote, KeepNewer)[a].address == a && IsLatest(log, Merged(local, remote, KeepNewer)[a])
    {
      MergedCopyIsLatest(log, local, remote, a);
    }
  }

  lemma MergeKeepsLog(n: Net, act: Action)
    requires CausalBound(n) && LogExact(n) && act.Merge? && Legal(n, act) && OwnEntriesKept(n, act)
    ensures LogExact(Next(n, act))
  {
    MergeKeepsOwn(n, act);
    forall w
      ensures w in n.log <==> 1 <= w.count <= Next(n, act).Own(w.device, w.address)
    {
      assert Next(n, act).Own(w.device, w.address) == n.Own(w.device, w.address);
    }
  }

  lemma OwnBookIsLatest(n: Net, d: Device)
    requires CausalBound(n) && LatestBooks(n)
    ensures LatestBook(n.log, n.BookOf(d))
  {
    assert n.BookOf(d) == map[] || n.BookOf(d) in n.past;
  }

  lemma MergeKeepsBooks(n: Net, act: Action)
    requires CausalBound(n) && LatestBooks(n) && act.Merge? && Legal(n, act) && MergesKeepNewer(act)
    ensures LatestBooks(Next(n, act))
  {
    OwnBookIsLatest(n, act.device);
    MergedBookIsLatest(n.log, n.BookOf(act.device), act.remote);
  }

  lemma MergeKeepsHistoric(n: Net, act: Action)
    requires Historic(n) && act.Merge? && Legal(n, act) && OwnEntriesKept(n, act) && MergesKeepNewer(act)
    ensures Historic(Next(n, act))
  {
    StepKeepsCausalBound(n, act);
    MergeKeepsLog(n, act);
    MergeKeepsBooks(n, act);
  }

  /** What a write does to a copy: one more own write, stamped last. */
  ghost predicate Extends(n: Net, d: Device, a: Address, c: SyncedContact) {
    && c.address == a
    && (forall w :: w in n.log && w.address == a ==> n.log[w].updatedAt != c.updatedAt)
    && (a !in n.BookOf(d) ==> c.clock == EMPTY.Increment(d))
    && (a in n.BookOf(d) ==>
          && c.clock == n.BookOf(d)[a].clock.Increment(d)
          && n.BookOf(d)[a].updatedAt < c.updatedAt)
  }

  lemma FirstWriteIsLatest(log: map<Write, SyncedContact>, d: Device, c: SyncedContact)
    requires c.clock == EMPTY.Increment(d)
    ensures IsLatest(log[Write(c.address, d, 1) := Content(c)], c)
  {
    assert InHistory(c, Write(c.address, d, 1));
  }

  lemma LaterWriteIsLatest(log: map<Write, SyncedContact>, d: Device, before: SyncedContact, c: SyncedContact)
    requires IsLatest(log, before) && c.address == before.address
    requires c.clock == before.clock.Increment(d) && before.updatedAt < c.updatedAt
    ensures IsLatest(log[Write(c.address, d, c.clock.Get(d)) := Content(c)], c)
  {
    var w := Write(c.address, d, c.clock.Get(d));
    assert InHistory(c, w);
    forall w' | InHistory(c, w') && w' != w
      ensures w' in log && log[w'].updatedAt <= c.updatedAt
    {
      assert InHistory(before, w');
    }
  }

  lemma OlderBooksStayLatest(log: map<Write, SyncedContact>, w: Write, c: SyncedContact, b: Book)
    requires LatestBook(log, b) && w !in log
    ensures LatestBook(log[w := c], b)
  {
    forall a | a in b
      ensures IsLatest(log[w := c], b[a])
    {
      OlderCopiesStayLatest(log, w, c, b[a]);
    }
  }

  lemma WriteIsFresh(n: Net, d: Device, a: Address, c: SyncedContact)
    requires CausalBound(n) && LogExact(n) && Extends(n, d, a, c)
    ensures c.clock.Get(d) == n.Own(d, a) + 1
    ensures forall e :: e != d ==> c.clock.Get(e) <= n.Own(e, a)
    ensures Write(a, d, c.clock.Get(d)) !in n.log
  {
    if a in n.BookOf(d) {
      assert n.BookOf(d) in n.past;
    }
  }

  lemma FreshStampStaysDistinct(log: map<Write, SyncedContact>, w: Write, c: SyncedContact)
    requires DistinctStamps(log) && w !in log
    requires forall w' :: w' in log && w'.address == w.address ==> log[w'].updatedAt != c.updatedAt
    ensures DistinctStamps(log[w := c])
  {
  }

  lemma WriteKeepsLog(n: Net, d: Device, a: Address, c: SyncedContact)
    requires LogExact(n) && c.clock.Get(d) == n.Own(d, a) + 1
    requires forall e, k :: n.Record(d, a, c).Own(e, k) == n.Own(e, k) + if e == d && k == a then 1 else 0
    ensures LogExact(n.Record(d, a, c))
  {
    var n' := n.Record(d, a, c);
    forall w
      ensures w in n'.log <==> 1 <= w.count <= n'.Own(w.device, w.address)
    {
      assert w in n.log <==> 1 <= w.count <= n.Own(w.device, w.address);
    }
  }

  lemma WriteKeepsLatest(log: map<Write, SyncedContact>, local: Book, d: Device, a: Address, c: SyncedContact)
    requires LatestBook(log, local) && c.address == a && Write(a, d, c.clock.Get(d)) !in log
    requires a !in local ==> c.clock == EMPTY.Increment(d)
    requires a in local ==> c.clock == local[a].clock.Increment(d) && local[a].updatedAt < c.updatedAt
    ensures LatestBook(log[Write(a, d, c.clock.Get(d)) := Content(c)], local[a := c])
  {
    var log' := log[Write(a, d, c.clock.Get(d)) := Content(c)];
    OlderBooksStayLatest(log, Write(a, d, c.clock.Get(d)), Content(c), local);
    if a in local {
      LaterWriteIsLatest(log, d, local[a], c);
    } else {
      FirstWriteIsLatest(log, d, c);
    }
    assert IsLatest(log', c);
  }

  lemma WriteKeepsHistoric(n: Net, d: Device, a: Address, c: SyncedContact)
    requires Historic(n) && Extends(n, d, a, c)
    ensures Historic(n.Record(d, a, c))
  {
    var w := Write(a, d, c.clock.Get(d));
    WriteIsFresh(n, d, a, c);
    WriteKeepsCausalBound(n, d, a, c);
    WriteKeepsLog(n, d, a, c);
    FreshStampStaysDistinct(n.log, w, Content(c));
    WriteKeepsBooks(n, d, a, c);
  }

  lemma WriteKeepsBooks(n: Net, d: Device, a: Address, c: SyncedContact)
    requires Historic(n) && Extends(n, d, a, c) && Write(a, d, c.clock.Get(d)) !in n.log
    ensures LatestBooks(n.Record(d, a, c))
  {
    var w := Write(a, d, c.clock.Get(d));
    OwnBookIsLatest(n, d);
    WriteKeepsLatest(n.log, n.BookOf(d), d, a, c);
    forall b | b in n.past
      ensures LatestBook(n.log[w := Content(c)], b)
    {
      OlderBooksStayLatest(n.log, w, Content(c), b);
    }
  }

  lemma OlderCopiesStayLatest(log: map<Write, SyncedContact>, w: Write, c: SyncedContact, copy: SyncedContact)
    requires IsLatest(log, copy) && w !in log
    ensures IsLatest(log[w := c], copy)
  {
    var w' :| InHistory(copy, w') && w' in log && log[w'] == Content(copy);
    assert log[w := c][w'] == Content(copy);
  }

  lemma AddKeepsHistoric(n: Net, d: Device, a: Address, name: string, now: Time)
    requires Historic(n) && a !in n.BookOf(d) && WellStamped(n, Add(d, a, name, now))
    ensures Historic(n.Record(d, a, NewContact(a, name, d, now)))
  {
    assert Writes(n, Add(d, a, name, now));
    WriteKeepsHistoric(n, d, a, NewContact(a, name, d, now));
  }

  lemma KeyedByAddress(n: Net, d: Device, a: Address)
    requires Historic(n) && a in n.BookOf(d)
    ensures n.BookOf(d)[a].address == a
  {
    OwnBookIsLatest(n, d);
  }

  lemma UpdateKeepsHistoric(n: Net, d: Device, a: Address, name: string, now: Time)
    requires Historic(n) && a in n.BookOf(d) && WellStamped(n, Update(d, a, name, now))
    ensures Historic(n.Record(d, a, Renamed(n.BookOf(d)[a], name, d, now)))
  {
    assert Writes(n, Update(d, a, name, now));
    KeyedByAddress(n, d, a);
    WriteKeepsHistoric(n, d, a, Renamed(n.BookOf(d)[a], name, d, now));
  }

  lemma DeleteKeepsHistoric(n: Net, d: Device, a: Address, now: Time)
    requires Historic(n) && a in n.BookOf(d) && WellStamped(n, Delete(d, a, now))
    ensures Historic(n.Record(d, a, SoftDeleted(n.BookOf(d)[a], d, now)))
  {
    assert Writes(n, Delete(d, a, now));
    KeyedByAddress(n, d, a);
    WriteKeepsHistoric(n, d, a, SoftDeleted(n.BookOf(d)[a], d, now));
  }

  lemma StepKeepsHistoric(n: Net, act: Action)
    requires Historic(n)
    requires Legal(n, act) && OwnEntriesKept(n, act) && WellStamped(n, act) && MergesKeepNewer(act)
    ensures Historic(Next(n, act))
  {
    match act
    case Merge(_, _, _) => MergeKeepsHistoric(n, act);
    case Add(d, a, name, now) =>
      if a !in n.BookOf(d) {
        AddKeepsHistoric(n, d, a, name, now);
      }
    case Update(d, a, name, now) =>
      if a in n.BookOf(d) {
        UpdateKeepsHistoric(n, d, a, name, now);
      }
    case Delete(d, a, now) =>
      if a in n.BookOf(d) {
        DeleteKeepsHistoric(n, d, a, now);
      }
  }

  // ---- Convergence of guarded runs ----

  /** Merges of existing books under KeepNewer, and well-stamped writes. */
  ghost predicate Stamped(n: Net, act: Action) {
    Legal(n, act) && WellStamped(n, act) && MergesKeepNewer(act)
  }

  ghost predicate StampedRun(n: Net, acts: seq<Action>)
    decreases |acts|
  {
    acts == [] || (Stamped(n, acts[0]) && StampedRun(Next(n, acts[0]), acts[1..]))
  }

  /** Such a run in which, moreover, every merge keeps the merging device's own entries. */
  ghost predicate GuardedRun(n: Net, acts: seq<Action>)
    decreases |acts|
  {
    acts == [] || (Stamped(n, acts[0]) && OwnEntriesKept(n, acts[0]) && GuardedRun(Next(n, acts[0]), acts[1..]))
  }

  lemma {:induction false} GuardedRunsAreHistoric(n: Net, acts: seq<Action>)
    requires Historic(n) && GuardedRun(n, acts)
    ensures Historic(Run(n, acts))
    decreases |acts|
  {
    if acts != [] {
      StepKeepsHistoric(n, acts[0]);
      GuardedRunsAreHistoric(Next(n, acts[0]), acts[1..]);
    }
  }

  /** Strong convergence: after any guarded run from the start, copies with equal clocks are equal, and each
      copy holds the latest write of its clock's causal history. */
  lemma StrongConvergence(acts: seq<Action>)
    requires GuardedRun(INIT, acts)
    ensures Converged(Run(INIT, acts))
    ensures LatestBooks(Run(INIT, acts))
  {
    GuardedRunsAreHistoric(INIT, acts);
    HistoricConverged(Run(INIT, acts));
  }
}
