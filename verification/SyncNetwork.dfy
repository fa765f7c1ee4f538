/** Devices that write to their own books and merge any book that ever existed, so that snapshots may be
    stale. Everything here is about runs: what holds after any sequence of such steps. */
module SyncNetwork {
  import opened VectorClocks
  import opened AddressBookSync
  import opened MergeLaws

  /** The `count`-th write of a device to a contact. */
  datatype Write = Write(address: Address, device: Device, count: nat)

  /** `live`: the present books, empty for a device that has not acted; `past`: every book there has been;
      `log`: the content of each write, a history variable. */
  datatype Net = Net(live: map<Device, Book>, past: set<Book>, log: map<Write, SyncedContact>) {
    function BookOf(d: Device): Book {
      if d in live then live[d] else map[]
    }

    /** A device's own entry in its clock for a contact. */
    function Own(d: Device, a: Address): nat {
      if a in BookOf(d) then BookOf(d)[a].clock.Get(d) else 0
    }

    function Install(d: Device, b: Book): Net {
      Net(live[d := b], past + {b}, log)
    }

    function Record(d: Device, a: Address, c: SyncedContact): Net {
      Install(d, BookOf(d)[a := c]).(log := log[Write(a, d, c.clock.Get(d)) := Content(c)])
    }
  }

  datatype Action =
    | Add(device: Device, address: Address, name: string, now: Time)
    | Update(device: Device, address: Address, name: string, now: Time)
    | Delete(device: Device, address: Address, now: Time)
    | Merge(device: Device, remote: Book, policy: ConflictResolution)

  const INIT := Net(map[], {map[]}, map[])

  /** A failed add, update or delete changes nothing. */
  ghost function Next(n: Net, act: Action): Net {
    match act
    case Add(d, a, name, now) =>
      if a in n.BookOf(d) then n else n.Record(d, a, NewContact(a, name, d, now))
    case Update(d, a, name, now) =>
      if a !in n.BookOf(d) then n else n.Record(d, a, Renamed(n.BookOf(d)[a], name, d, now))
    case Delete(d, a, now) =>
      if a !in n.BookOf(d) then n else n.Record(d, a, SoftDeleted(n.BookOf(d)[a], d, now))
    case Merge(d, remote, policy) => n.Install(d, Merged(n.BookOf(d), remote, policy))
  }

  ghost function Run(n: Net, acts: seq<Action>): Net
    decreases |acts|
  {
    if acts == [] then n else Run(Next(n, acts[0]), acts[1..])
  }

  // ---- Assumptions on steps ----

  /** Only books that exist or existed are merged. */
  ghost predicate Legal(n: Net, act: Action) {
    act.Merge? ==> act.remote in n.past
  }

  /** Taking a concurrent remote copy of `a` must not lower the device's own entry for `a`. */
  ghost predicate OwnEntryKept(n: Net, d: Device, remote: Book, policy: ConflictResolution, a: Address) {
    a in n.BookOf(d) && a in remote && OverwritesConcurrent(n.BookOf(d)[a], remote[a], policy)
    ==> n.BookOf(d)[a].clock.Get(d) <= remote[a].clock.Get(d)
  }

  ghost predicate OwnEntriesKept(n: Net, act: Action) {
    act.Merge? ==> forall a :: OwnEntryKept(n, act.device, act.remote, act.policy, a)
  }

  /** An add, update or delete that succeeds. */
  ghost predicate Writes(n: Net, act: Action) {
    !act.Merge? && (act.Add? <==> act.address !in n.BookOf(act.device))
  }

  /** A write is stamped later than the copy it changes, and no two writes to a contact share a stamp. */
  ghost predicate WellStamped(n: Net, act: Action) {
    Writes(n, act) ==>
      && (act.address in n.BookOf(act.device) ==> n.BookOf(act.device)[act.address].updatedAt < act.now)
      && (forall w :: w in n.log && w.address == act.address ==> n.log[w].updatedAt != act.now)
  }

  ghost predicate MergesKeepNewer(act: Action) {
    act.Merge? ==> act.policy.KeepNewer?
  }

  // ---- The causal bound ----

  /** No copy, present or past, has a larger entry for a device than that device itself. */
  ghost predicate CausalBound(n: Net) {
    && (forall d :: d in n.live ==> n.live[d] in n.past)
    && (forall b: Book, a, d :: b in n.past && a in b ==> b[a].clock.Get(d) <= n.Own(d, a))
  }

  lemma WriteKeepsCausalBound(n: Net, d: Device, a: Address, c: SyncedContact)
    requires CausalBound(n)
    requires c.clock.Get(d) == n.Own(d, a) + 1
    requires forall e :: e != d ==> c.clock.Get(e) <= n.Own(e, a)
    ensures CausalBound(n.Record(d, a, c))
    ensures forall e, k :: n.Record(d, a, c).Own(e, k) == n.Own(e, k) + if e == d && k == a then 1 else 0
  {
    var n' := n.Record(d, a, c);
    assert forall e, k :: n'.Own(e, k) == n.Own(e, k) + if e == d && k == a then 1 else 0;
    forall b: Book, k, e | b in n'.past && k in b
      ensures b[k].clock.Get(e) <= n'.Own(e, k)
    {
      if b !in n.past && k != a {
        assert n.BookOf(d) in n.past && b[k] == n.BookOf(d)[k];
      }
    }
  }

  /** A merge keeps each of the merging device's own entries, except where it overwrites a concurrent copy
      with one that lacks some of the device's writes. */
  lemma MergeOwnEntry(n: Net, d: Device, remote: Book, policy: ConflictResolution, a: Address)
    requires CausalBound(n) && remote in n.past
    ensures var n' := n.Install(d, Merged(n.BookOf(d), remote, policy));
            && n'.Own(d, a) <= n.Own(d, a)
            && (n'.Own(d, a) == n.Own(d, a) <==> OwnEntryKept(n, d, remote, policy, a))
            && (forall e :: e != d ==> n'.Own(e, a) == n.Own(e, a))
  {
    var local := n.BookOf(d);
    if a in remote && a in local {
      MergedClockIsJoinIff(local[a], remote[a], policy);
      assert remote[a].clock.Get(d) <= n.Own(d, a);
    } else if a in remote {
      assert remote[a].clock.Get(d) <= n.Own(d, a);
    }
  }

  lemma MergedEntryBound(n: Net, d: Device, remote: Book, policy: ConflictResolution, a: Address, e: Device)
    requires CausalBound(n) && remote in n.past
    requires a in n.BookOf(d) || a in remote
    ensures Merged(n.BookOf(d), remote, policy)[a].clock.Get(e) <= n.Own(e, a)
  {
    var local := n.BookOf(d);
    if a in local {
      assert local in n.past && local[a].clock.Get(e) <= n.Own(e, a);
    }
    if a in remote {
      assert remote[a].clock.Get(e) <= n.Own(e, a);
    }
  }

  lemma MergeKeepsOwn(n: Net, act: Action)
    requires CausalBound(n) && act.Merge? && Legal(n, act) && OwnEntriesKept(n, act)
    ensures forall e, a :: Next(n, act).Own(e, a) == n.Own(e, a)
  {
    forall e, a
      ensures Next(n, act).Own(e, a) == n.Own(e, a)
    {
      MergeOwnEntry(n, act.device, act.remote, act.policy, a);
      assert OwnEntryKept(n, act.device, act.remote, act.policy, a);
    }
  }

  lemma MergeKeepsCausalBound(n: Net, act: Action)
    requires CausalBound(n) && act.Merge? && Legal(n, act) && OwnEntriesKept(n, act)
    ensures CausalBound(Next(n, act))
  {
    var n' := Next(n, act);
    MergeKeepsOwn(n, act);
    forall b: Book, a, e | b in n'.past && a in b
      ensures b[a].clock.Get(e) <= n'.Own(e, a)
    {
      if b !in n.past {
        MergedEntryBound(n, act.device, act.remote, act.policy, a, e);
      }
    }
  }

  lemma MergeBreaksCausalBound(n: Net, act: Action, a: Address)
    requires CausalBound(n) && act.Merge? && Legal(n, act)
    requires !OwnEntryKept(n, act.device, act.remote, act.policy, a)
    ensures !CausalBound(Next(n, act))
  {
    var local := n.BookOf(act.device);
    MergeOwnEntry(n, act.device, act.remote, act.policy, a);
    assert local in Next(n, act).past && local[a].clock.Get(act.device) > Next(n, act).Own(act.device, a);
  }

  /** Exactly the merges that keep the device's own entries preserve the causal bound. */
  lemma MergeKeepsCausalBoundIff(n: Net, act: Action)
    requires CausalBound(n) && act.Merge? && Legal(n, act)
    ensures CausalBound(Next(n, act)) <==> OwnEntriesKept(n, act)
  {
    if OwnEntriesKept(n, act) {
      MergeKeepsCausalBound(n, act);
    } else {
      var a :| !OwnEntryKept(n, act.device, act.remote, act.policy, a);
      MergeBreaksCausalBound(n, act, a);
    }
  }

  lemma StepKeepsCausalBound(n: Net, act: Action)
    requires CausalBound(n) && Legal(n, act) && OwnEntriesKept(n, act)
    ensures CausalBound(Next(n, act))
  {
    match act
    case Merge(_, _, _) => MergeKeepsCausalBound(n, act);
    case Add(d, a, name, now) =>
      if a !in n.BookOf(d) {
        WriteKeepsCausalBound(n, d, a, NewContact(a, name, d, now));
      }
    case Update(d, a, name, now) =>
      if a in n.BookOf(d) {
        assert n.BookOf(d) in n.past;
        WriteKeepsCausalBound(n, d, a, Renamed(n.BookOf(d)[a], name, d, now));
      }
    case Delete(d, a, now) =>
      if a in n.BookOf(d) {
        assert n.BookOf(d) in n.past;
        WriteKeepsCausalBound(n, d, a, SoftDeleted(n.BookOf(d)[a], d, now));
      }
  }

  ghost predicate KeepsOwn(n: Net, acts: seq<Action>)
    decreases |acts|
  {
    acts == [] || (Legal(n, acts[0]) && OwnEntriesKept(n, acts[0]) && KeepsOwn(Next(n, acts[0]), acts[1..]))
  }

  /** In every run whose merges keep the merging device's own entries, whatever the policies, no clock
      entry for a device ever exceeds that device's own. */
  lemma {:induction false} CausalBoundInRuns(n: Net, acts: seq<Action>)
    requires CausalBound(n) && KeepsOwn(n, acts)
    ensures CausalBound(Run(n, acts))
    decreases |acts|
  {
    if acts != [] {
      StepKeepsCausalBound(n, acts[0]);
      CausalBoundInRuns(Next(n, acts[0]), acts[1..]);
    }
  }

  // ---- Books stay keyed by address ----

  /** Every book there has been is keyed by its contacts' addresses, as delta sync needs. */
  ghost predicate AllWellKeyed(n: Net) {
    && (forall d :: d in n.live ==> n.live[d] in n.past)
    && forall b :: b in n.past ==> WellKeyed(b)
  }

  lemma MergedWellKeyed(local: Book, remote: Book, policy: ConflictResolution)
    requires WellKeyed(local) && WellKeyed(remote)
    ensures WellKeyed(Merged(local, remote, policy))
  {
  }

  lemma StepKeepsWellKeyed(n: Net, act: Action)
    requires AllWellKeyed(n) && Legal(n, act)
    ensures AllWellKeyed(Next(n, act))
  {
    assert WellKeyed(n.BookOf(act.device));
    if act.Merge? {
      MergedWellKeyed(n.BookOf(act.device), act.remote, act.policy);
    }
  }

  ghost predicate LegalRun(n: Net, acts: seq<Action>)
    decreases |acts|
  {
    acts == [] || (Legal(n, acts[0]) && LegalRun(Next(n, acts[0]), acts[1..]))
  }

  /** In every run, under any policies, every book is keyed by its contacts' addresses. */
  lemma {:induction false} BooksWellKeyed(n: Net, acts: seq<Action>)
    requires AllWellKeyed(n) && LegalRun(n, acts)
    ensures AllWellKeyed(Run(n, acts))
    decreases |acts|
  {
    if acts != [] {
      StepKeepsWellKeyed(n, acts[0]);
      BooksWellKeyed(Next(n, acts[0]), acts[1..]);
    }
  }

  lemma InitWellKeyed()
    ensures AllWellKeyed(INIT)
  {
  }

  /** So delta sync is exact between any two books of any run from the start. */
  lemma DeltaSyncInRuns(acts: seq<Action>, local: Book, remote: Book, policy: ConflictResolution, result: SyncResult)
    requires LegalRun(INIT, acts) && remote in Run(INIT, acts).past
    ensures var delta := ChangesSince(remote, ClocksOf(local));
            && SameBook(Merged(local, delta, policy), Merged(local, remote, policy))
            && (Reports(result, local, delta, policy, delta.Keys)
                <==> Reports(result, local, remote, policy, remote.Keys))
  {
    InitWellKeyed();
    BooksWellKeyed(INIT, acts);
    DeltaIsExact(local, remote, policy, result);
  }

  // ---- The causal bound between live books ----

  /** No live copy has a larger entry for a device than that device's own live copy. */
  ghost predicate LiveBound(n: Net) {
    forall e, a, d :: a in n.BookOf(e) ==> n.BookOf(e)[a].clock.Get(d) <= n.Own(d, a)
  }

  lemma CausalBoundIsLive(n: Net)
    requires CausalBound(n)
    ensures LiveBound(n)
  {
    forall e, a, d | a in n.BookOf(e)
      ensures n.BookOf(e)[a].clock.Get(d) <= n.Own(d, a)
    {
      assert n.BookOf(e) in n.past;
    }
  }

  lemma {:induction false} LongerThanAll(used: set<Device>) returns (n: nat)
    ensures forall u :: u in used ==> |u| < n
  {
    n := 0;
    if used != {} {
      var u :| u in used;
      n := LongerThanAll(used - {u});
      n := n + |u| + 1;
    }
  }

  /** Device names are unbounded and a network is finite, so some other device has not acted. */
  lemma IdleDevice(n: Net, d: Device) returns (g: Device)
    ensures g != d && n.BookOf(g) == map[]
  {
    var len := LongerThanAll(n.live.Keys + {d});
    g := seq(len, i => 'g');
  }

  /** After a merge that lowers an own entry, a new device that merges the overwritten book holds a copy
      whose entry exceeds its owner's. */
  lemma StaleBookBreaksLiveBound(n: Net, act: Action, a: Address) returns (step: Action)
    requires CausalBound(n) && act.Merge? && Legal(n, act)
    requires !OwnEntryKept(n, act.device, act.remote, act.policy, a)
    ensures step.Merge? && Legal(Next(n, act), step) && OwnEntriesKept(Next(n, act), step)
    ensures !LiveBound(Next(Next(n, act), step))
  {
    var d, stale, n1 := act.device, n.BookOf(act.device), Next(n, act);
    var g := IdleDevice(n1, d);
    step := Merge(g, stale, act.policy);
    MergeOwnEntry(n, d, act.remote, act.policy, a);
    var n2 := Next(n1, step);
    assert n2.BookOf(g)[a] == stale[a] && n2.Own(d, a) == n1.Own(d, a);
  }

  /** The guard is exact for live books too: after one more merge, every continuation of writes and guarded
      merges keeps the bound between live books exactly when that merge was guarded. */
  lemma LiveBoundGuaranteedIff(n: Net, act: Action)
    requires CausalBound(n) && act.Merge? && Legal(n, act)
    ensures OwnEntriesKept(n, act)
            <==> forall acts :: KeepsOwn(Next(n, act), acts) ==> LiveBound(Run(Next(n, act), acts))
  {
    var n1 := Next(n, act);
    if OwnEntriesKept(n, act) {
      StepKeepsCausalBound(n, act);
      forall acts | KeepsOwn(n1, acts)
        ensures LiveBound(Run(n1, acts))
      {
        CausalBoundInRuns(n1, acts);
        CausalBoundIsLive(Run(n1, acts));
      }
    } else {
      var a :| !OwnEntryKept(n, act.device, act.remote, act.policy, a);
      var step := StaleBookBreaksLiveBound(n, act, a);
      OneStep(n1, step);
    }
  }

  lemma OneStep(n: Net, act: Action)
    ensures Run(n, [act]) == Next(n, act)
    ensures KeepsOwn(n, [act]) <==> Legal(n, act) && OwnEntriesKept(n, act)
  {
    assert [act][1..] == [];
    assert Run(Next(n, act), []) == Next(n, act) && KeepsOwn(Next(n, act), []);
  }

  // ---- Policies, contacts, tombstones ----

  /** KeepLocal and Manual merges never overwrite a concurrent copy, so they always keep own entries. */
  lemma LocalPoliciesKeepOwn(n: Net, act: Action)
    requires act.Merge? ==> act.policy.KeepLocal? || act.policy.Manual?
    ensures OwnEntriesKept(n, act)
  {
  }

  /** No step of any kind loses a contact, at any device. */
  lemma {:induction false} ContactsNeverLost(n: Net, acts: seq<Action>, d: Device)
    ensures n.BookOf(d).Keys <= Run(n, acts).BookOf(d).Keys
    decreases |acts|
  {
    if acts != [] {
      ContactsNeverLost(Next(n, acts[0]), acts[1..], d);
    }
  }

  ghost predicate NoMergeAt(acts: seq<Action>, d: Device) {
    forall i :: 0 <= i < |acts| ==> !(acts[i].Merge? && acts[i].device == d)
  }

  /** A deleted contact stays deleted at a device until that device merges: neither adding the address again
      nor renaming it brings it back. */
  lemma {:induction false} TombstonesStay(n: Net, acts: seq<Action>, d: Device, a: Address)
    requires a in n.BookOf(d) && n.BookOf(d)[a].deleted && NoMergeAt(acts, d)
    ensures a in Run(n, acts).BookOf(d) && Run(n, acts).BookOf(d)[a].deleted
    decreases |acts|
  {
    if acts != [] {
      TombstoneStep(n, acts[0], d, a);
      TombstonesStay(Next(n, acts[0]), acts[1..], d, a);
    }
  }

  lemma TombstoneStep(n: Net, act: Action, d: Device, a: Address)
    requires a in n.BookOf(d) && n.BookOf(d)[a].deleted && !(act.Merge? && act.device == d)
    ensures a in Next(n, act).BookOf(d) && Next(n, act).BookOf(d)[a].deleted
  {
  }
}
