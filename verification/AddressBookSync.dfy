/** Books of contacts tagged with vector clocks: local writes, merge and delta export
    (wallet/src/addressbook_sync.rs). */
module AddressBookSync {
  import opened Wrappers
  import opened VectorClocks

  type Address = string
  /** `updated_at`: the source compares timestamp strings of one zone, whose order is that of the times. */
  type Time = int

  datatype SyncedContact = SyncedContact(
    address: Address, name: string, notes: string, tags: seq<string>,
    updatedAt: Time, updatedBy: Device, clock: VectorClock, deleted: bool)

  type Book = map<Address, SyncedContact>

  datatype SyncError = NotFound(address: Address) | Conflict(address: Address)

  datatype ConflictResolution = KeepLocal | KeepRemote | KeepNewer | Manual

  datatype SyncConflict = SyncConflict(address: Address, local: SyncedContact, remote: SyncedContact)

  datatype SyncResult = SyncResult(added: nat, updated: nat, deleted: nat, conflicts: seq<SyncConflict>)

  // ---- Local writes on one contact ----

  function NewContact(address: Address, name: string, device: Device, now: Time): SyncedContact {
    SyncedContact(address, name, "", [], now, device, EMPTY.Increment(device), false)
  }

  function Renamed(c: SyncedContact, name: string, device: Device, now: Time): SyncedContact {
    c.(name := name, updatedAt := now, updatedBy := device, clock := c.clock.Increment(device))
  }

  function SoftDeleted(c: SyncedContact, device: Device, now: Time): SyncedContact {
    c.(deleted := true, updatedAt := now, updatedBy := device, clock := c.clock.Increment(device))
  }

  /** A write leaves address, notes and tags, and records its time, its author and one more own write. */
  ghost predicate WrittenOver(before: SyncedContact, after: SyncedContact, device: Device, now: Time) {
    && after.address == before.address && after.notes == before.notes && after.tags == before.tags
    && after.updatedAt == now && after.updatedBy == device
    && forall e :: after.clock.Get(e) == before.clock.Get(e) + if e == device then 1 else 0
  }

  // ---- Merge ----

  /** Everything but the clock. */
  function Content(c: SyncedContact): SyncedContact {
    c.(clock := EMPTY)
  }

  /** The branch structure of the merge loop: is the local copy overwritten by the remote one? */
  ghost predicate TakesRemote(l: SyncedContact, r: SyncedContact, policy: ConflictResolution) {
    && !l.clock.Dominates(r.clock)
    && (|| r.clock.Dominates(l.clock)
        || policy.KeepRemote?
        || (policy.KeepNewer? && r.updatedAt > l.updatedAt))
  }

  /** The surviving copy. Its clock, and not the overwritten one's, is joined with the remote clock. */
  ghost function MergeCopy(l: SyncedContact, r: SyncedContact, policy: ConflictResolution): SyncedContact {
    var kept := if TakesRemote(l, r, policy) then r else l;
    kept.(clock := kept.clock.Join(r.clock))
  }

  ghost function Merged(local: Book, remote: Book, policy: ConflictResolution): (b: Book)
    ensures b.Keys == local.Keys + remote.Keys
  {
    map a | a in local.Keys + remote.Keys ::
      if a !in remote then local[a]
      else if a !in local then remote[a]
      else MergeCopy(local[a], remote[a], policy)
  }

  // ---- What a merge reports ----

  datatype Outcome = Added | Deleted | Updated | Conflicted | Unchanged

  ghost function OutcomeOf(local: Book, remote: Book, policy: ConflictResolution, a: Address): Outcome {
    if a !in remote then Unchanged
    else if a !in local then if remote[a].deleted then Deleted else Added
    else if TakesRemote(local[a], remote[a], policy) then Updated
    else if policy.Manual? && local[a].clock.Concurrent(remote[a].clock) then Conflicted
    else Unchanged
  }

  /** The contacts of `seen` that a merge treats in the given way. */
  ghost function KeysWith(o: Outcome, local: Book, remote: Book, policy: ConflictResolution, seen: set<Address>)
    : set<Address>
  {
    set a | a in seen && OutcomeOf(local, remote, policy, a) == o
  }

  lemma KeysWithStep(o: Outcome, local: Book, remote: Book, policy: ConflictResolution, seen: set<Address>, a: Address)
    requires a !in seen
    ensures KeysWith(o, local, remote, policy, seen + {a})
            == if OutcomeOf(local, remote, policy, a) == o then KeysWith(o, local, remote, policy, seen) + {a}
               else KeysWith(o, local, remote, policy, seen)
  {
  }

  lemma KeysCount(o: Outcome, local: Book, remote: Book, policy: ConflictResolution, seen: set<Address>, a: Address)
    requires a !in seen
    ensures |KeysWith(o, local, remote, policy, seen + {a})|
            == |KeysWith(o, local, remote, policy, seen)| + if OutcomeOf(local, remote, policy, a) == o then 1 else 0
  {
    KeysWithStep(o, local, remote, policy, seen, a);
  }

  ghost predicate ListsConflicts(conflicts: seq<SyncConflict>, local: Book, remote: Book, keys: set<Address>) {
    && |conflicts| == |keys|
    && (forall a :: a in keys && a in local && a in remote ==> SyncConflict(a, local[a], remote[a]) in conflicts)
    && (forall c :: c in conflicts ==>
          c.address in keys && c.address in local && c.address in remote
          && c == SyncConflict(c.address, local[c.address], remote[c.address]))
  }

  lemma ListsOneMore(conflicts: seq<SyncConflict>, local: Book, remote: Book, keys: set<Address>, a: Address)
    requires ListsConflicts(conflicts, local, remote, keys)
    requires a !in keys && a in local && a in remote
    ensures ListsConflicts(conflicts + [SyncConflict(a, local[a], remote[a])], local, remote, keys + {a})
  {
    var more := conflicts + [SyncConflict(a, local[a], remote[a])];
    assert forall c :: c in more <==> c in conflicts || c == SyncConflict(a, local[a], remote[a]);
  }

  /** What a merge reports once it has handled the remote contacts in `seen`. */
  ghost predicate Reports(result: SyncResult, local: Book, remote: Book, policy: ConflictResolution,
                          seen: set<Address>)
  {
    && result.added == |KeysWith(Added, local, remote, policy, seen)|
    && result.deleted == |KeysWith(Deleted, local, remote, policy, seen)|
    && result.updated == |KeysWith(Updated, local, remote, policy, seen)|
    && ListsConflicts(result.conflicts, local, remote, KeysWith(Conflicted, local, remote, policy, seen))
  }

  /** `result` after one more remote contact, of address `a`, has been handled. */
  ghost function Tally(result: SyncResult, local: Book, remote: Book, policy: ConflictResolution, a: Address)
    : SyncResult
    requires a in remote
  {
    match OutcomeOf(local, remote, policy, a)
    case Added => result.(added := result.added + 1)
    case Deleted => result.(deleted := result.deleted + 1)
    case Updated => result.(updated := result.updated + 1)
    case Conflicted => result.(conflicts := result.conflicts + [SyncConflict(a, local[a], remote[a])])
    case Unchanged => result
  }

  lemma TallyReports(result: SyncResult, local: Book, remote: Book, policy: ConflictResolution, seen: set<Address>,
                     a: Address)
    requires a in remote && a !in seen
    requires Reports(result, local, remote, policy, seen)
    ensures Reports(Tally(result, local, remote, policy, a), local, remote, policy, seen + {a})
  {
    KeysCount(Added, local, remote, policy, seen, a);
    KeysCount(Deleted, local, remote, policy, seen, a);
    KeysCount(Updated, local, remote, policy, seen, a);
    TallyConflicts(result, local, remote, policy, seen, a);
  }

  lemma TallyConflicts(result: SyncResult, local: Book, remote: Book, policy: ConflictResolution, seen: set<Address>,
                       a: Address)
    requires a in remote && a !in seen
    requires ListsConflicts(result.conflicts, local, remote, KeysWith(Conflicted, local, remote, policy, seen))
    ensures ListsConflicts(Tally(result, local, remote, policy, a).conflicts, local, remote,
                           KeysWith(Conflicted, local, remote, policy, seen + {a}))
  {
    var keys := KeysWith(Conflicted, local, remote, policy, seen);
    KeysWithStep(Conflicted, local, remote, policy, seen, a);
    if OutcomeOf(local, remote, policy, a) == Conflicted {
      ListsOneMore(result.conflicts, local, remote, keys, a);
    }
  }

  /** The copy the first merge loop leaves under a remote address. */
  ghost function PickedCopy(local: Book, remote: Book, policy: ConflictResolution, a: Address): SyncedContact
    requires a in remote
  {
    if a in local && !TakesRemote(local[a], remote[a], policy) then local[a] else remote[a]
  }

  /** The book after the first merge loop has handled the remote contacts in `seen`. */
  ghost predicate AfterFirstLoop(b: Book, local: Book, remote: Book, policy: ConflictResolution, seen: set<Address>) {
    && b.Keys == local.Keys + seen
    && (forall a :: a in local && a !in seen ==> b[a] == local[a])
    && (forall a :: a in seen && a in remote ==> b[a] == PickedCopy(local, remote, policy, a))
  }

  lemma FirstLoopStep(b: Book, local: Book, remote: Book, policy: ConflictResolution, seen: set<Address>, a: Address)
    requires a in remote && a !in seen
    requires AfterFirstLoop(b, local, remote, policy, seen)
    ensures AfterFirstLoop(b[a := PickedCopy(local, remote, policy, a)], local, remote, policy, seen + {a})
    ensures a in local ==> a in b && b[a] == local[a]
    ensures a !in local ==> a !in b
  {
  }

  /** What the second merge loop does to one contact. */
  function WithJoinedClock(c: SyncedContact, remote: Book, a: Address): SyncedContact {
    if a in remote then c.(clock := c.clock.Join(remote[a].clock)) else c
  }

  lemma JoinedCopyIsMerged(local: Book, remote: Book, policy: ConflictResolution, a: Address)
    requires a in local || a in remote
    ensures var picked := if a in remote then PickedCopy(local, remote, policy, a) else local[a];
            WithJoinedClock(picked, remote, a) == Merged(local, remote, policy)[a]
  {
    if a in remote {
      JoinSelf(remote[a].clock);
    }
  }

  lemma SecondLoopJoins(picked: Book, local: Book, remote: Book, policy: ConflictResolution, book: Book)
    requires AfterFirstLoop(picked, local, remote, policy, remote.Keys)
    requires book.Keys == picked.Keys
    requires forall a :: a in book ==> book[a] == WithJoinedClock(picked[a], remote, a)
    ensures book == Merged(local, remote, policy)
  {
    var merged := Merged(local, remote, policy);
    forall a | a in book
      ensures book[a] == merged[a]
    {
      JoinedCopyIsMerged(local, remote, policy, a);
    }
    assert book.Keys == merged.Keys;
  }

  /** The conflict branches of the merge loop, for two copies of one contact. */
  method CompareCopies(l: SyncedContact, r: SyncedContact, policy: ConflictResolution)
    returns (take: bool, conflict: bool)
    ensures take <==> TakesRemote(l, r, policy)
    ensures conflict <==> policy.Manual? && l.clock.Concurrent(r.clock)
  {
    take, conflict := false, false;
    var localDominates := CheckDominates(l.clock, r.clock);
    if localDominates {
      return;
    }
    var remoteDominates := CheckDominates(r.clock, l.clock);
    if remoteDominates {
      take := true;
    } else {
      match policy
      case KeepLocal =>
      case KeepRemote => take := true;
      case KeepNewer => take := r.updatedAt > l.updatedAt;
      case Manual => conflict := true;
    }
  }

  /** The body of the first merge loop. */
  method PickCopy(book: Book, result: SyncResult, ghost local: Book, remote: Book, policy: ConflictResolution,
                  addr: Address)
    returns (book': Book, result': SyncResult)
    requires addr in remote
    requires if addr in local then addr in book && book[addr] == local[addr] else addr !in book
    ensures book' == book[addr := PickedCopy(local, remote, policy, addr)]
    ensures result' == Tally(result, local, remote, policy, addr)
  {
    book', result' := book, result;
    if addr !in book {
      book' := book[addr := remote[addr]];
      if remote[addr].deleted {
        result' := result.(deleted := result.deleted + 1);
      } else {
        result' := result.(added := result.added + 1);
      }
    } else {
      var take, conflict := CompareCopies(book[addr], remote[addr], policy);
      if take {
        book' := book[addr := remote[addr]];
        result' := result.(updated := result.updated + 1);
      } else if conflict {
        result' := result.(conflicts := result.conflicts + [SyncConflict(addr, book[addr], remote[addr])]);
      }
    }
  }

  // ---- The first merge loop as a fold over the order in which it meets the remote contacts ----

  ghost predicate Lists(order: seq<Address>, remote: Book) {
    && (forall i :: 0 <= i < |order| ==> order[i] in remote)
    && (forall i, j :: 0 <= i < j < |order| ==> order[i] != order[j])
  }

  ghost function PickAll(order: seq<Address>, local: Book, remote: Book, policy: ConflictResolution): Book
    requires Lists(order, remote)
  {
    if order == [] then local
    else
      var last := order[|order| - 1];
      PickAll(order[..|order| - 1], local, remote, policy)[last := PickedCopy(local, remote, policy, last)]
  }

  ghost function TallyAll(order: seq<Address>, local: Book, remote: Book, policy: ConflictResolution): SyncResult
    requires Lists(order, remote)
  {
    if order == [] then SyncResult(0, 0, 0, [])
    else Tally(TallyAll(order[..|order| - 1], local, remote, policy), local, remote, policy, order[|order| - 1])
  }

  ghost function SetOf(order: seq<Address>): set<Address> {
    set a | a in order
  }

  lemma {:induction false} PickAllMeaning(order: seq<Address>, local: Book, remote: Book, policy: ConflictResolution)
    requires Lists(order, remote)
    ensures AfterFirstLoop(PickAll(order, local, remote, policy), local, remote, policy, SetOf(order))
  {
    if order != [] {
      var init, last := order[..|order| - 1], order[|order| - 1];
      PickAllMeaning(init, local, remote, policy);
      FirstLoopStep(PickAll(init, local, remote, policy), local, remote, policy, SetOf(init), last);
      assert SetOf(order) == SetOf(init) + {last};
    }
  }

  lemma {:induction false} TallyAllMeaning(order: seq<Address>, local: Book, remote: Book, policy: ConflictResolution)
    requires Lists(order, remote)
    ensures Reports(TallyAll(order, local, remote, policy), local, remote, policy, SetOf(order))
  {
    if order == [] {
      EmptyReport(local, remote, policy);
    } else {
      var init, last := order[..|order| - 1], order[|order| - 1];
      TallyAllMeaning(init, local, remote, policy);
      TallyReports(TallyAll(init, local, remote, policy), local, remote, policy, SetOf(init), last);
      assert SetOf(order) == SetOf(init) + {last};
    }
  }

  lemma EmptyReport(local: Book, remote: Book, policy: ConflictResolution)
    ensures Reports(SyncResult(0, 0, 0, []), local, remote, policy, SetOf([]))
  {
    assert forall o :: KeysWith(o, local, remote, policy, SetOf([])) == {};
  }

  lemma {:induction false} NotYetMet(order: seq<Address>, local: Book, remote: Book, policy: ConflictResolution,
                                     a: Address)
    requires Lists(order, remote) && a !in order
    ensures var b := PickAll(order, local, remote, policy);
            if a in local then a in b && b[a] == local[a] else a !in b
  {
    if order != [] {
      NotYetMet(order[..|order| - 1], local, remote, policy, a);
    }
  }

  /** The first merge loop: copies are picked and counted, over the remote contacts in any order. */
  method PickCopies(local: Book, remote: Book, policy: ConflictResolution)
    returns (book: Book, result: SyncResult, ghost order: seq<Address>)
    ensures Lists(order, remote) && SetOf(order) == remote.Keys
    ensures book == PickAll(order, local, remote, policy)
    ensures result == TallyAll(order, local, remote, policy)
  {
    book, result, order := local, SyncResult(0, 0, 0, []), [];
    var todo := remote.Keys;
    while todo != {}
      invariant Lists(order, remote)
      invariant forall a :: a in remote <==> a in order || a in todo
      invariant forall a :: a in todo ==> a !in order
      invariant book == PickAll(order, local, remote, policy)
      invariant result == TallyAll(order, local, remote, policy)
      decreases todo
    {
      var addr :| addr in todo;
      NotYetMet(order, local, remote, policy, addr);
      book, result := PickCopy(book, result, local, remote, policy, addr);
      assert (order + [addr])[..|order|] == order;
      order, todo := order + [addr], todo - {addr};
    }
  }

  /** The second merge loop: every surviving copy of a remote contact joins the remote clock. */
  method JoinClocks(picked: Book, remote: Book) returns (book: Book)
    ensures book.Keys == picked.Keys
    ensures forall a :: a in book ==> book[a] == WithJoinedClock(picked[a], remote, a)
  {
    book := picked;
    var todo := picked.Keys;
    while todo != {}
      invariant book.Keys == picked.Keys
      invariant forall a :: a in todo ==> a in picked && book[a] == picked[a]
      invariant forall a :: a in book && a !in todo ==> book[a] == WithJoinedClock(picked[a], remote, a)
      decreases todo
    {
      var addr :| addr in todo;
      if addr in remote {
        var clock := MergeClocks(book[addr].clock, remote[addr].clock);
        book := book[addr := book[addr].(clock := clock)];
      }
      todo := todo - {addr};
    }
  }

  /** One device's book, updated in place. */
  class SyncableAddressBook {
    const deviceId: Device
    var contacts: Book
    var lastSync: Option<Time>
    var syncCount: nat

    constructor (deviceId: Device)
      ensures this.deviceId == deviceId && contacts == map[] && lastSync == None && syncCount == 0
    {
      this.deviceId := deviceId;
      contacts, lastSync, syncCount := map[], None, 0;
    }

    /** Fails on any known address, a tombstone included. */
    method Add(address: Address, name: string, now: Time) returns (r: Result<(), SyncError>)
      modifies this`contacts
      ensures r.Ok? <==> address !in old(contacts)
      ensures r.Err? ==> r.error == Conflict(address) && contacts == old(contacts)
      ensures r.Ok? ==> contacts == old(contacts)[address := NewContact(address, name, deviceId, now)]
      ensures r.Ok? ==>
                var c := contacts[address];
                && c.address == address && c.name == name && c.notes == "" && c.tags == [] && !c.deleted
                && c.updatedAt == now && c.updatedBy == deviceId
                && forall e :: c.clock.Get(e) == if e == deviceId then 1 else 0
    {
      if address in contacts {
        return Err(Conflict(address));
      }
      contacts := contacts[address := NewContact(address, name, deviceId, now)];
      return Ok(());
    }

    /** Renames a contact; a tombstone stays a tombstone. */
    method Update(address: Address, name: string, now: Time) returns (r: Result<(), SyncError>)
      modifies this`contacts
      ensures r.Ok? <==> address in old(contacts)
      ensures r.Err? ==> r.error == NotFound(address) && contacts == old(contacts)
      ensures r.Ok? ==> contacts == old(contacts)[address := Renamed(old(contacts)[address], name, deviceId, now)]
      ensures r.Ok? ==> WrittenOver(old(contacts)[address], contacts[address], deviceId, now)
      ensures r.Ok? ==> contacts[address].name == name && contacts[address].deleted == old(contacts)[address].deleted
    {
      if address !in contacts {
        return Err(NotFound(address));
      }
      contacts := contacts[address := Renamed(contacts[address], name, deviceId, now)];
      return Ok(());
    }

    method Delete(address: Address, now: Time) returns (r: Result<(), SyncError>)
      modifies this`contacts
      ensures r.Ok? <==> address in old(contacts)
      ensures r.Err? ==> r.error == NotFound(address) && contacts == old(contacts)
      ensures r.Ok? ==> contacts == old(contacts)[address := SoftDeleted(old(contacts)[address], deviceId, now)]
      ensures r.Ok? ==> WrittenOver(old(contacts)[address], contacts[address], deviceId, now)
      ensures r.Ok? ==> contacts[address].deleted && contacts[address].name == old(contacts)[address].name
    {
      if address !in contacts {
        return Err(NotFound(address));
      }
      contacts := contacts[address := SoftDeleted(contacts[address], deviceId, now)];
      return Ok(());
    }

    /** Merges a remote book into this one: the loop that picks copies, then the loop that joins clocks. */
    method Merge(remote: SyncableAddressBook, resolution: ConflictResolution, now: Time) returns (result: SyncResult)
      requires remote != this
      modifies this
      ensures contacts == Merged(old(contacts), remote.contacts, resolution)
      ensures Reports(result, old(contacts), remote.contacts, resolution, remote.contacts.Keys)
      ensures syncCount == old(syncCount) + 1 && lastSync == Some(now)
    {
      var picked;
      ghost var order;
      picked, result, order := PickCopies(contacts, remote.contacts, resolution);
      PickAllMeaning(order, contacts, remote.contacts, resolution);
      TallyAllMeaning(order, contacts, remote.contacts, resolution);
      var joined := JoinClocks(picked, remote.contacts);
      SecondLoopJoins(picked, contacts, remote.contacts, resolution, joined);
      contacts := joined;
      syncCount := syncCount + 1;
      lastSync := Some(now);
    }
  }
}
