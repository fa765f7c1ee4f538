/** Laws of one merge and of merges in sequence, for arbitrary books and all four conflict policies. */
module MergeLaws {
  import opened VectorClocks
  import opened AddressBookSync

  /** Same contacts with the same content and the same clocks. */
  ghost predicate SameBook(b: Book, b': Book) {
    && b.Keys == b'.Keys
    && forall a :: a in b ==> SameCopy(b[a], b'[a])
  }

  ghost predicate SameCopy(c: SyncedContact, c': SyncedContact) {
    SameClock(c.clock, c'.clock) && Content(c) == Content(c')
  }

  /** The remote copy overwrites a local copy that it does not causally follow. */
  ghost predicate OverwritesConcurrent(l: SyncedContact, r: SyncedContact, policy: ConflictResolution) {
    l.clock.Concurrent(r.clock) && TakesRemote(l, r, policy)
  }

  /** The merged clock is the least upper bound of the two clocks, except when a concurrent remote copy is
      taken: then the local clock is dropped and the merged copy is the remote copy unchanged. */
  lemma MergedClockIsJoinIff(l: SyncedContact, r: SyncedContact, policy: ConflictResolution)
    ensures SameClock(MergeCopy(l, r, policy).clock, l.clock.Join(r.clock)) <==> !OverwritesConcurrent(l, r, policy)
    ensures TakesRemote(l, r, policy) ==> MergeCopy(l, r, policy) == r
    ensures MergeCopy(l, r, policy).clock.Dominates(r.clock)
  {
    JoinSelf(r.clock);
    var m := MergeCopy(l, r, policy).clock;
    var j := l.clock.Join(r.clock);
    if TakesRemote(l, r, policy) {
      assert m == r.clock;
      if r.clock.Dominates(l.clock) {
        assert forall d :: j.Get(d) == r.clock.Get(d);
      } else {
        var d :| r.clock.Get(d) < l.clock.Get(d);
        assert m.Get(d) != j.Get(d);
      }
    }
  }

  /** Content and clock are the whole copy. */
  lemma ContentAndClock(c: SyncedContact, c': SyncedContact)
    ensures Content(c) == Content(c') && c.clock == c'.clock <==> c == c'
  {
  }

  // ---- What the report says about the books ----

  /** The contacts a merge brings in that are tombstones, or that are not. */
  ghost function BroughtIn(local: Book, merged: Book, deleted: bool): set<Address> {
    set a | a in merged && a !in local && merged[a].deleted == deleted
  }

  /** The known contacts whose local copy a merge gives up for the remote one. */
  ghost function GivenUp(local: Book, remote: Book, merged: Book): set<Address> {
    set a | a in local && a in remote && a in merged
            && merged[a] == remote[a] && !local[a].clock.Dominates(remote[a].clock)
  }

  lemma OutcomeInBooks(local: Book, remote: Book, policy: ConflictResolution, a: Address)
    ensures var merged := Merged(local, remote, policy);
            && (OutcomeOf(local, remote, policy, a) == Added <==> a in BroughtIn(local, merged, false))
            && (OutcomeOf(local, remote, policy, a) == Deleted <==> a in BroughtIn(local, merged, true))
            && (OutcomeOf(local, remote, policy, a) == Updated <==> a in GivenUp(local, remote, merged))
  {
    if a in local && a in remote {
      MergedClockIsJoinIff(local[a], remote[a], policy);
      if !TakesRemote(local[a], remote[a], policy) && !local[a].clock.Dominates(remote[a].clock) {
        KeptIsNotRemote(local[a], remote[a], policy);
      }
    }
  }

  lemma KeptIsNotRemote(l: SyncedContact, r: SyncedContact, policy: ConflictResolution)
    requires !TakesRemote(l, r, policy) && !l.clock.Dominates(r.clock)
    ensures MergeCopy(l, r, policy) != r
  {
    var d :| r.clock.Get(d) < l.clock.Get(d);
    assert MergeCopy(l, r, policy).clock.Get(d) == l.clock.Get(d);
  }

  /** The report of a merge, read off the books before and after: contacts brought in alive count as added,
      those brought in as tombstones as deleted, and copies given up for the remote one as updated. */
  lemma ReportIsOfBooks(local: Book, remote: Book, policy: ConflictResolution, result: SyncResult)
    requires Reports(result, local, remote, policy, remote.Keys)
    ensures var merged := Merged(local, remote, policy);
            && result.added == |BroughtIn(local, merged, false)| && result.deleted == |BroughtIn(local, merged, true)|
            && result.updated == |GivenUp(local, remote, merged)|
  {
    var merged := Merged(local, remote, policy);
    forall a
      ensures a in KeysWith(Added, local, remote, policy, remote.Keys) <==> a in BroughtIn(local, merged, false)
      ensures a in KeysWith(Deleted, local, remote, policy, remote.Keys) <==> a in BroughtIn(local, merged, true)
      ensures a in KeysWith(Updated, local, remote, policy, remote.Keys) <==> a in GivenUp(local, remote, merged)
    {
      OutcomeInBooks(local, remote, policy, a);
    }
    assert KeysWith(Added, local, remote, policy, remote.Keys) == BroughtIn(local, merged, false);
    assert KeysWith(Deleted, local, remote, policy, remote.Keys) == BroughtIn(local, merged, true);
    assert KeysWith(Updated, local, remote, policy, remote.Keys) == GivenUp(local, remote, merged);
  }

  /** The conflicts reported are exactly the contacts of both books with concurrent clocks, under Manual, each with
      its two copies. */
  lemma ConflictsAre(local: Book, remote: Book, policy: ConflictResolution, result: SyncResult, c: SyncConflict)
    requires Reports(result, local, remote, policy, remote.Keys)
    ensures c in result.conflicts <==>
            && policy.Manual? && c.address in local && c.address in remote
            && local[c.address].clock.Concurrent(remote[c.address].clock)
            && c.local == local[c.address] && c.remote == remote[c.address]
  {
    var keys := KeysWith(Conflicted, local, remote, policy, remote.Keys);
    var a := c.address;
    assert a in keys <==>
           policy.Manual? && a in local && a in remote && local[a].clock.Concurrent(remote[a].clock);
  }

  // ---- Merging the same remote twice ----

  lemma JoinAbsorbs(c: VectorClock, c': VectorClock)
    ensures c.Join(c').Join(c') == c.Join(c')
  {
  }

  lemma SecondMergeKeeps(l: SyncedContact, r: SyncedContact, policy: ConflictResolution, again: ConflictResolution)
    ensures var m := MergeCopy(l, r, policy);
            m.clock.Dominates(r.clock) && MergeCopy(m, r, again) == m
  {
    MergedClockIsJoinIff(l, r, policy);
    JoinAbsorbs(l.clock, r.clock);
    JoinSelf(r.clock);
  }

  /** A second merge of the same remote, under any policy, changes no contact and reports nothing. */
  lemma MergeTwice(local: Book, remote: Book, policy: ConflictResolution, again: ConflictResolution, result: SyncResult)
    requires Reports(result, Merged(local, remote, policy), remote, again, remote.Keys)
    ensures Merged(Merged(local, remote, policy), remote, again) == Merged(local, remote, policy)
    ensures result == SyncResult(0, 0, 0, [])
  {
    var once := Merged(local, remote, policy);
    forall a | a in remote
      ensures OutcomeOf(once, remote, again, a) == Unchanged && Merged(once, remote, again)[a] == once[a]
    {
      if a in local {
        SecondMergeKeeps(local[a], remote[a], policy, again);
      } else {
        JoinSelf(remote[a].clock);
      }
    }
    NothingReported(once, remote, again, result);
  }

  lemma NothingReported(local: Book, remote: Book, policy: ConflictResolution, result: SyncResult)
    requires Reports(result, local, remote, policy, remote.Keys)
    requires forall a :: a in remote ==> OutcomeOf(local, remote, policy, a) == Unchanged
    ensures result == SyncResult(0, 0, 0, [])
  {
    assert KeysWith(Added, local, remote, policy, remote.Keys) == {};
    assert KeysWith(Deleted, local, remote, policy, remote.Keys) == {};
    assert KeysWith(Updated, local, remote, policy, remote.Keys) == {};
    assert KeysWith(Conflicted, local, remote, policy, remote.Keys) == {};
  }

  // ---- Two devices merging each other ----

  /** Copies of one contact with equal clocks have equal content. */
  ghost predicate Consistent(b: Book, b': Book) {
    forall a :: a in b && a in b' && SameClock(b[a].clock, b'[a].clock) ==> Content(b[a]) == Content(b'[a])
  }

  lemma ExchangeCopy(l: SyncedContact, r: SyncedContact, policy: ConflictResolution, back: ConflictResolution)
    ensures var m := MergeCopy(l, r, policy);
            SameCopy(MergeCopy(r, m, back), m) <==> SameClock(l.clock, r.clock) ==> Content(l) == Content(r)
  {
    MergedClockIsJoinIff(l, r, policy);
    var m := MergeCopy(l, r, policy);
    MergedClockIsJoinIff(r, m, back);
    if !TakesRemote(l, r, policy) {
      if l.clock.Dominates(r.clock) {
        assert SameClock(m.clock, l.clock);
        if r.clock.Dominates(l.clock) {
          assert r.clock.Dominates(m.clock) && !TakesRemote(r, m, back);
          assert SameClock(l.clock, r.clock);
        } else {
          assert TakesRemote(r, m, back);
        }
      } else {
        var d :| l.clock.Get(d) > r.clock.Get(d);
        assert m.clock.Get(d) > r.clock.Get(d);
        assert TakesRemote(r, m, back);
      }
    }
  }

  /** A merges B, then B merges the result: both books end up equal exactly when copies with equal
      clocks already had equal content. Holds for every pair of policies. */
  lemma ExchangeAgreesIff(a: Book, b: Book, policy: ConflictResolution, back: ConflictResolution)
    ensures var a' := Merged(a, b, policy);
            SameBook(Merged(b, a', back), a') <==> Consistent(a, b)
  {
    var a' := Merged(a, b, policy);
    var b' := Merged(b, a', back);
    assert b'.Keys == a'.Keys;
    if Consistent(a, b) {
      forall k | k in a'
        ensures SameCopy(b'[k], a'[k])
      {
        ExchangeKey(a, b, policy, back, k);
      }
    } else {
      var k :| k in a && k in b && SameClock(a[k].clock, b[k].clock) && Content(a[k]) != Content(b[k]);
      ExchangeKey(a, b, policy, back, k);
      assert k in b' && !SameCopy(b'[k], a'[k]);
    }
  }

  lemma ExchangeKey(a: Book, b: Book, policy: ConflictResolution, back: ConflictResolution, k: Address)
    requires k in a || k in b
    ensures var a' := Merged(a, b, policy);
            var b' := Merged(b, a', back);
            if k in a && k in b then
              SameCopy(b'[k], a'[k]) <==> SameClock(a[k].clock, b[k].clock) ==> Content(a[k]) == Content(b[k])
            else SameCopy(b'[k], a'[k])
  {
    if k in a && k in b {
      ExchangeCopy(a[k], b[k], policy, back);
    } else if k in b {
      MergedClockIsJoinIff(b[k], b[k], back);
    }
  }

  /** Two devices that merge each other's older copies at the same time, after concurrent changes. KeepLocal
      and Manual leave equal clocks over the two different contents, as does KeepNewer on equal stamps;
      KeepRemote swaps the copies; KeepNewer on different stamps gives both devices the newer content. */
  lemma CrossingMerges(l: SyncedContact, r: SyncedContact, policy: ConflictResolution)
    requires l.clock.Concurrent(r.clock)
    ensures var ml, mr := MergeCopy(l, r, policy), MergeCopy(r, l, policy);
            match policy
            case KeepRemote => ml == r && mr == l
            case KeepNewer =>
              if l.updatedAt == r.updatedAt then
                SameClock(ml.clock, mr.clock) && Content(ml) == Content(l) && Content(mr) == Content(r)
              else Content(ml) == Content(mr) == Content(if r.updatedAt > l.updatedAt then r else l)
            case _ => SameClock(ml.clock, mr.clock) && Content(ml) == Content(l) && Content(mr) == Content(r)
  {
    MergedClockIsJoinIff(l, r, policy);
    MergedClockIsJoinIff(r, l, policy);
  }

  // ---- Delta sync ----

  ghost predicate WellKeyed(b: Book) {
    forall a :: a in b ==> b[a].address == a
  }

  /** The contacts `changes_since` returns, keyed by their address. */
  ghost function ChangesSince(b: Book, since: map<Address, VectorClock>): Book {
    map a | a in b && (b[a].address in since ==> !since[b[a].address].Dominates(b[a].clock)) :: b[a]
  }

  function ClocksOf(b: Book): map<Address, VectorClock> {
    map a | a in b :: b[a].clock
  }

  /** Merging only what changed since the local clocks equals merging the whole remote book, and reports the
      same. */
  lemma DeltaIsExact(local: Book, remote: Book, policy: ConflictResolution, result: SyncResult)
    requires WellKeyed(remote)
    ensures var delta := ChangesSince(remote, ClocksOf(local));
            && SameBook(Merged(local, delta, policy), Merged(local, remote, policy))
            && (Reports(result, local, delta, policy, delta.Keys)
                <==> Reports(result, local, remote, policy, remote.Keys))
  {
    var delta := ChangesSince(remote, ClocksOf(local));
    DeltaBooks(local, remote, policy);
    DeltaKeys(Added, local, remote, policy);
    DeltaKeys(Deleted, local, remote, policy);
    DeltaKeys(Updated, local, remote, policy);
    DeltaKeys(Conflicted, local, remote, policy);
    DeltaConflicts(result.conflicts, local, delta, remote, KeysWith(Conflicted, local, delta, policy, delta.Keys));
  }

  /** The delta is minimal: it holds exactly the contacts that merging the remote book changes. */
  lemma DeltaIsMinimal(local: Book, remote: Book, policy: ConflictResolution, a: Address)
    requires WellKeyed(remote)
    ensures a in ChangesSince(remote, ClocksOf(local)) <==>
            a in remote && (a in local ==> !SameCopy(Merged(local, remote, policy)[a], local[a]))
  {
    if a in remote && a in local {
      MergedClockIsJoinIff(local[a], remote[a], policy);
    }
  }

  lemma DeltaBooks(local: Book, remote: Book, policy: ConflictResolution)
    requires WellKeyed(remote)
    ensures SameBook(Merged(local, ChangesSince(remote, ClocksOf(local)), policy), Merged(local, remote, policy))
  {
    var delta := ChangesSince(remote, ClocksOf(local));
    var m, m' := Merged(local, delta, policy), Merged(local, remote, policy);
    forall a | a in m'
      ensures a in m && SameCopy(m[a], m'[a])
    {
      DeltaKey(local, remote, policy, a);
    }
    assert m.Keys == m'.Keys;
  }

  /** A contact left out of the delta is one the whole merge would not have changed. */
  lemma DeltaOutcome(local: Book, remote: Book, policy: ConflictResolution, a: Address)
    requires WellKeyed(remote)
    ensures OutcomeOf(local, ChangesSince(remote, ClocksOf(local)), policy, a) == OutcomeOf(local, remote, policy, a)
  {
    if a in remote && a !in ChangesSince(remote, ClocksOf(local)) {
      assert local[a].clock.Dominates(remote[a].clock);
    }
  }

  lemma DeltaKeys(o: Outcome, local: Book, remote: Book, policy: ConflictResolution)
    requires WellKeyed(remote) && o != Unchanged
    ensures var delta := ChangesSince(remote, ClocksOf(local));
            KeysWith(o, local, delta, policy, delta.Keys) == KeysWith(o, local, remote, policy, remote.Keys)
  {
    var delta := ChangesSince(remote, ClocksOf(local));
    forall a
      ensures a in KeysWith(o, local, delta, policy, delta.Keys)
              <==> a in KeysWith(o, local, remote, policy, remote.Keys)
    {
      DeltaOutcome(local, remote, policy, a);
    }
  }

  /** A list of conflicts is read the same against a part of the remote book that holds them. */
  lemma DeltaConflicts(conflicts: seq<SyncConflict>, local: Book, part: Book, remote: Book, keys: set<Address>)
    requires keys <= part.Keys && forall a :: a in part ==> a in remote && part[a] == remote[a]
    ensures ListsConflicts(conflicts, local, part, keys) <==> ListsConflicts(conflicts, local, remote, keys)
  {
  }

  lemma DeltaKey(local: Book, remote: Book, policy: ConflictResolution, a: Address)
    requires WellKeyed(remote)
    requires a in local || a in remote
    ensures var m := Merged(local, ChangesSince(remote, ClocksOf(local)), policy);
            a in m && SameCopy(m[a], Merged(local, remote, policy)[a])
  {
    var delta := ChangesSince(remote, ClocksOf(local));
    if a in remote && a !in delta {
      assert local[a].clock.Dominates(remote[a].clock);
      MergedClockIsJoinIff(local[a], remote[a], policy);
    }
  }
}
