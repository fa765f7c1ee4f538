/** What a device reads back of its own writes, in terms of the actions of the run alone. */
module SyncOwnWrites {
  import opened VectorClocks
  import opened AddressBookSync
  import opened MergeLaws
  import opened SyncNetwork

  // ---- After any state of the network, until the device merges ----

  ghost predicate NoRenameAt(acts: seq<Action>, d: Device, a: Address) {
    forall i :: 0 <= i < |acts| ==> !(acts[i].Update? && acts[i].device == d && acts[i].address == a)
  }

  lemma NameStep(n: Net, act: Action, d: Device, a: Address)
    requires a in n.BookOf(d) && !(act.Merge? && act.device == d)
    requires !(act.Update? && act.device == d && act.address == a)
    ensures a in Next(n, act).BookOf(d) && Next(n, act).BookOf(d)[a].name == n.BookOf(d)[a].name
  {
  }

  lemma {:induction false} NameStays(n: Net, acts: seq<Action>, d: Device, a: Address)
    requires a in n.BookOf(d) && NoMergeAt(acts, d) && NoRenameAt(acts, d, a)
    ensures a in Run(n, acts).BookOf(d) && Run(n, acts).BookOf(d)[a].name == n.BookOf(d)[a].name
    decreases |acts|
  {
    if acts != [] {
      NameStep(n, acts[0], d, a);
      NameStays(Next(n, acts[0]), acts[1..], d, a);
    }
  }

  /** A contact a device deletes is deleted there until the device merges, whatever else happens. */
  lemma DeletedStaysDeleted(n: Net, d: Device, a: Address, now: Time, acts: seq<Action>)
    requires a in n.BookOf(d) && NoMergeAt(acts, d)
    ensures var b := Run(Next(n, Delete(d, a, now)), acts).BookOf(d);
            a in b && b[a].deleted
  {
    TombstonesStay(Next(n, Delete(d, a, now)), acts, d, a);
  }

  /** A name a device gives, by adding or renaming, stays there until the device renames again or merges. */
  lemma GivenNameStays(n: Net, d: Device, a: Address, name: string, now: Time, acts: seq<Action>)
    requires NoMergeAt(acts, d) && NoRenameAt(acts, d, a)
    ensures var act := if a in n.BookOf(d) then Update(d, a, name, now) else Add(d, a, name, now);
            var b := Run(Next(n, act), acts).BookOf(d);
            a in b && b[a].name == name
  {
    var act := if a in n.BookOf(d) then Update(d, a, name, now) else Add(d, a, name, now);
    NameStays(Next(n, act), acts, d, a);
  }

  // ---- The whole copy, from the actions of a run in which the device does not merge ----

  ghost predicate AddsAt(act: Action, d: Device, a: Address) {
    act.Add? && act.device == d && act.address == a
  }

  /** The address was added before the `i`-th action. */
  ghost predicate Known(acts: seq<Action>, i: nat, d: Device, a: Address) {
    exists k :: 0 <= k < i && k < |acts| && AddsAt(acts[k], d, a)
  }

  /** The `i`-th action takes effect: the first add, or an update or delete after it. */
  ghost predicate Effective(acts: seq<Action>, i: nat, d: Device, a: Address) {
    && i < |acts| && !acts[i].Merge? && acts[i].device == d && acts[i].address == a
    && (acts[i].Add? <==> !Known(acts, i, d, a))
  }

  ghost function EffectiveCount(acts: seq<Action>, n: nat, d: Device, a: Address): nat {
    if n == 0 then 0 else EffectiveCount(acts, n - 1, d, a) + if Effective(acts, n - 1, d, a) then 1 else 0
  }

  ghost predicate LastEffective(acts: seq<Action>, i: nat, d: Device, a: Address) {
    Effective(acts, i, d, a) && forall j :: i < j < |acts| ==> !Effective(acts, j, d, a)
  }

  /** The last action that gave the contact a name. */
  ghost predicate LastNaming(acts: seq<Action>, i: nat, d: Device, a: Address) {
    && Effective(acts, i, d, a) && !acts[i].Delete?
    && forall j :: i < j < |acts| && Effective(acts, j, d, a) ==> acts[j].Delete?
  }

  ghost predicate WasDeleted(acts: seq<Action>, d: Device, a: Address) {
    exists i :: 0 <= i < |acts| && Effective(acts, i, d, a) && acts[i].Delete?
  }

  ghost predicate StampFrom(acts: seq<Action>, d: Device, a: Address, t: Time) {
    exists i: nat :: LastEffective(acts, i, d, a) && acts[i].now == t
  }

  ghost predicate NameFrom(acts: seq<Action>, d: Device, a: Address, name: string) {
    exists i: nat :: LastNaming(acts, i, d, a) && acts[i].name == name
  }

  /** The copy says what the actions say. */
  ghost predicate CopyFromActions(acts: seq<Action>, d: Device, a: Address, c: SyncedContact) {
    && c.address == a && c.notes == "" && c.tags == [] && c.updatedBy == d
    && (c.deleted <==> WasDeleted(acts, d, a))
    && (forall e :: c.clock.Get(e) == if e == d then EffectiveCount(acts, |acts|, d, a) else 0)
    && StampFrom(acts, d, a, c.updatedAt) && NameFrom(acts, d, a, c.name)
  }

  lemma KnownGrows(acts: seq<Action>, act: Action, i: nat, d: Device, a: Address)
    requires i <= |acts|
    ensures Known(acts + [act], i, d, a) <==> Known(acts, i, d, a)
  {
    assert forall k :: 0 <= k < i ==> (acts + [act])[k] == acts[k];
  }

  lemma KnownAfter(acts: seq<Action>, act: Action, d: Device, a: Address)
    ensures Known(acts + [act], |acts| + 1, d, a) <==> Known(acts, |acts|, d, a) || AddsAt(act, d, a)
  {
    var more := acts + [act];
    assert more[|acts|] == act;
    if Known(acts, |acts|, d, a) {
      var k :| 0 <= k < |acts| && AddsAt(acts[k], d, a);
      assert AddsAt(more[k], d, a);
    }
    if Known(more, |acts| + 1, d, a) {
      var k :| 0 <= k < |acts| + 1 && AddsAt(more[k], d, a);
      assert k < |acts| ==> more[k] == acts[k];
    }
  }

  lemma EffectiveGrows(acts: seq<Action>, act: Action, i: nat, d: Device, a: Address)
    requires i < |acts|
    ensures Effective(acts + [act], i, d, a) <==> Effective(acts, i, d, a)
  {
    KnownGrows(acts, act, i, d, a);
  }

  lemma EffectiveNow(acts: seq<Action>, act: Action, d: Device, a: Address)
    ensures Effective(acts + [act], |acts|, d, a) <==>
            !act.Merge? && act.device == d && act.address == a && (act.Add? <==> !Known(acts, |acts|, d, a))
  {
    KnownGrows(acts, act, |acts|, d, a);
  }

  lemma {:induction false} CountGrows(acts: seq<Action>, act: Action, n: nat, d: Device, a: Address)
    requires n <= |acts|
    ensures EffectiveCount(acts + [act], n, d, a) == EffectiveCount(acts, n, d, a)
  {
    if n > 0 {
      CountGrows(acts, act, n - 1, d, a);
      EffectiveGrows(acts, act, n - 1, d, a);
    }
  }

  /** All earlier actions keep their role when one more follows. */
  lemma RolesKept(acts: seq<Action>, act: Action, d: Device, a: Address)
    ensures forall i :: 0 <= i < |acts| ==> (Effective(acts + [act], i, d, a) <==> Effective(acts, i, d, a))
  {
    forall i | 0 <= i < |acts|
      ensures Effective(acts + [act], i, d, a) <==> Effective(acts, i, d, a)
    {
      EffectiveGrows(acts, act, i, d, a);
    }
  }

  lemma CountNow(acts: seq<Action>, act: Action, d: Device, a: Address)
    ensures EffectiveCount(acts + [act], |acts + [act]|, d, a)
            == EffectiveCount(acts, |acts|, d, a) + if Effective(acts + [act], |acts|, d, a) then 1 else 0
  {
    CountGrows(acts, act, |acts|, d, a);
  }

  lemma DeletedGrows(acts: seq<Action>, act: Action, d: Device, a: Address)
    ensures WasDeleted(acts + [act], d, a) <==>
            WasDeleted(acts, d, a) || (Effective(acts + [act], |acts|, d, a) && act.Delete?)
  {
    var more := acts + [act];
    RolesKept(acts, act, d, a);
    assert more[|acts|] == act;
    if WasDeleted(acts, d, a) {
      var i :| 0 <= i < |acts| && Effective(acts, i, d, a) && acts[i].Delete?;
      assert Effective(more, i, d, a) && more[i].Delete?;
    }
    if WasDeleted(more, d, a) {
      var i :| 0 <= i < |more| && Effective(more, i, d, a) && more[i].Delete?;
      assert i < |acts| ==> Effective(acts, i, d, a) && acts[i] == more[i];
    }
  }

  lemma LastGrows(acts: seq<Action>, act: Action, i: nat, d: Device, a: Address)
    requires i < |acts|
    ensures LastEffective(acts, i, d, a) && !Effective(acts + [act], |acts|, d, a) ==>
              LastEffective(acts + [act], i, d, a)
    ensures LastNaming(acts, i, d, a) && (Effective(acts + [act], |acts|, d, a) ==> act.Delete?) ==>
              LastNaming(acts + [act], i, d, a)
  {
    var more := acts + [act];
    RolesKept(acts, act, d, a);
    assert forall j :: 0 <= j < |acts| ==> more[j] == acts[j];
    assert more[|acts|] == act;
  }

  lemma StampKept(acts: seq<Action>, act: Action, d: Device, a: Address, t: Time)
    requires StampFrom(acts, d, a, t) && !Effective(acts + [act], |acts|, d, a)
    ensures StampFrom(acts + [act], d, a, t)
  {
    var i: nat :| LastEffective(acts, i, d, a) && acts[i].now == t;
    LastGrows(acts, act, i, d, a);
    assert (acts + [act])[i] == acts[i];
  }

  lemma NameKept(acts: seq<Action>, act: Action, d: Device, a: Address, name: string)
    requires NameFrom(acts, d, a, name) && (Effective(acts + [act], |acts|, d, a) ==> act.Delete?)
    ensures NameFrom(acts + [act], d, a, name)
  {
    var i: nat :| LastNaming(acts, i, d, a) && acts[i].name == name;
    LastGrows(acts, act, i, d, a);
    assert (acts + [act])[i] == acts[i];
  }

  /** The copy is not touched by an action without effect on it. */
  lemma KeptFromActions(acts: seq<Action>, act: Action, d: Device, a: Address, c: SyncedContact)
    requires CopyFromActions(acts, d, a, c) && !Effective(acts + [act], |acts|, d, a)
    ensures CopyFromActions(acts + [act], d, a, c)
  {
    CountNow(acts, act, d, a);
    DeletedGrows(acts, act, d, a);
    StampKept(acts, act, d, a, c.updatedAt);
    NameKept(acts, act, d, a, c.name);
  }

  lemma WriteIsLast(acts: seq<Action>, act: Action, d: Device, a: Address)
    requires Effective(acts + [act], |acts|, d, a)
    ensures StampFrom(acts + [act], d, a, act.now)
    ensures !act.Delete? ==> NameFrom(acts + [act], d, a, act.name)
  {
    var more := acts + [act];
    assert more[|acts|] == act;
    assert LastEffective(more, |acts|, d, a) && (!act.Delete? ==> LastNaming(more, |acts|, d, a));
  }

  lemma {:induction false} NothingEffective(acts: seq<Action>, n: nat, d: Device, a: Address)
    requires n <= |acts| && !Known(acts, |acts|, d, a)
    ensures EffectiveCount(acts, n, d, a) == 0
    ensures forall i :: 0 <= i < n ==> !Effective(acts, i, d, a)
  {
    if n > 0 {
      NothingEffective(acts, n - 1, d, a);
    }
  }

  lemma AddedFromActions(acts: seq<Action>, act: Action, d: Device, a: Address)
    requires act.Add? && act.device == d && act.address == a && !Known(acts, |acts|, d, a)
    ensures CopyFromActions(acts + [act], d, a, NewContact(a, act.name, d, act.now))
  {
    EffectiveNow(acts, act, d, a);
    CountNow(acts, act, d, a);
    DeletedGrows(acts, act, d, a);
    NothingEffective(acts, |acts|, d, a);
    WriteIsLast(acts, act, d, a);
  }

  lemma RenamedFromActions(acts: seq<Action>, act: Action, d: Device, a: Address, c: SyncedContact)
    requires CopyFromActions(acts, d, a, c) && Known(acts, |acts|, d, a)
    requires act.Update? && act.device == d && act.address == a
    ensures CopyFromActions(acts + [act], d, a, Renamed(c, act.name, d, act.now))
  {
    EffectiveNow(acts, act, d, a);
    CountNow(acts, act, d, a);
    DeletedGrows(acts, act, d, a);
    WriteIsLast(acts, act, d, a);
  }

  lemma DeletedFromActions(acts: seq<Action>, act: Action, d: Device, a: Address, c: SyncedContact)
    requires CopyFromActions(acts, d, a, c) && Known(acts, |acts|, d, a)
    requires act.Delete? && act.device == d && act.address == a
    ensures CopyFromActions(acts + [act], d, a, SoftDeleted(c, d, act.now))
  {
    EffectiveNow(acts, act, d, a);
    CountNow(acts, act, d, a);
    DeletedGrows(acts, act, d, a);
    WriteIsLast(acts, act, d, a);
    NameKept(acts, act, d, a, c.name);
  }

  ghost predicate BookFromActions(acts: seq<Action>, d: Device, a: Address, b: Book) {
    && (a in b <==> Known(acts, |acts|, d, a))
    && (a in b ==> CopyFromActions(acts, d, a, b[a]))
  }

  lemma BookStep(n: Net, acts: seq<Action>, act: Action, d: Device, a: Address)
    requires BookFromActions(acts, d, a, n.BookOf(d)) && !(act.Merge? && act.device == d)
    ensures BookFromActions(acts + [act], d, a, Next(n, act).BookOf(d))
  {
    var b := n.BookOf(d);
    KnownAfter(acts, act, d, a);
    EffectiveNow(acts, act, d, a);
    if Effective(acts + [act], |acts|, d, a) {
      match act
      case Add(_, _, _, _) => AddedFromActions(acts, act, d, a);
      case Update(_, _, _, _) => RenamedFromActions(acts, act, d, a, b[a]);
      case Delete(_, _, _) => DeletedFromActions(acts, act, d, a, b[a]);
    } else {
      assert a in b ==> a in Next(n, act).BookOf(d) && Next(n, act).BookOf(d)[a] == b[a];
      if a in b {
        KeptFromActions(acts, act, d, a, b[a]);
      }
    }
  }

  lemma {:induction false} RunOneMore(n: Net, acts: seq<Action>, act: Action)
    ensures Run(n, acts + [act]) == Next(Run(n, acts), act)
    decreases |acts|
  {
    if acts == [] {
      assert acts + [act] == [act];
      OneStep(n, act);
    } else {
      assert (acts + [act])[1..] == acts[1..] + [act];
      RunOneMore(Next(n, acts[0]), acts[1..], act);
    }
  }

  /** In every run from the start in which a device does not merge, its book says exactly what its own actions
      say: an address is there once added, under the last name given, with the time of the last write, deleted
      once a delete took effect, and with a clock that counts the writes that took effect. */
  lemma {:induction false} OwnBookFromActions(acts: seq<Action>, d: Device, a: Address)
    requires NoMergeAt(acts, d)
    ensures BookFromActions(acts, d, a, Run(INIT, acts).BookOf(d))
    decreases |acts|
  {
    if acts != [] {
      var before, act := acts[..|acts| - 1], acts[|acts| - 1];
      assert acts == before + [act];
      assert NoMergeAt(before, d);
      OwnBookFromActions(before, d, a);
      RunOneMore(INIT, before, act);
      BookStep(Run(INIT, before), before, act, d, a);
    }
  }
}
