/** The guard of SyncConvergence is exact: once a KeepNewer merge lowers the merging device's own entry,
    some continuation that itself obeys every rule ends with equal clocks over different content. */
module SyncDivergence {
  import opened VectorClocks
  import opened AddressBookSync
  import opened MergeLaws
  import opened SyncNetwork
  import opened SyncConvergence

  // ---- Runs one after the other ----

  lemma {:induction false} RunAppend(n: Net, acts: seq<Action>, more: seq<Action>)
    ensures Run(n, acts + more) == Run(Run(n, acts), more)
    ensures GuardedRun(n, acts) && GuardedRun(Run(n, acts), more) ==> GuardedRun(n, acts + more)
    ensures StampedRun(n, acts) && StampedRun(Run(n, acts), more) ==> StampedRun(n, acts + more)
    decreases |acts|
  {
    if acts == [] {
      assert acts + more == more;
    } else {
      assert (acts + more)[1..] == acts[1..] + more;
      RunAppend(Next(n, acts[0]), acts[1..], more);
    }
  }

  lemma {:induction false} GuardedIsStamped(n: Net, acts: seq<Action>)
    requires GuardedRun(n, acts)
    ensures StampedRun(n, acts)
    decreases |acts|
  {
    if acts != [] {
      GuardedIsStamped(Next(n, acts[0]), acts[1..]);
    }
  }

  // ---- A device renames one contact several times ----

  function Renames(d: Device, a: Address, count: nat, from: Time): seq<Action> {
    if count == 0 then [] else [Update(d, a, "", from)] + Renames(d, a, count - 1, from + 1)
  }

  ghost predicate StampsBelow(n: Net, t: Time) {
    forall w :: w in n.log ==> n.log[w].updatedAt < t
  }

  /** The only change: the copy of `a` at `d` has `count` more own writes and a later stamp. */
  ghost predicate OnlyRenamed(n: Net, n': Net, d: Device, a: Address, count: nat)
    requires a in n.BookOf(d)
  {
    && n.past <= n'.past
    && (forall e :: e != d ==> n'.BookOf(e) == n.BookOf(e))
    && a in n'.BookOf(d)
    && n'.BookOf(d) == n.BookOf(d)[a := n'.BookOf(d)[a]]
    && (forall e :: n'.BookOf(d)[a].clock.Get(e) == n.BookOf(d)[a].clock.Get(e) + if e == d then count else 0)
    && n'.BookOf(d)[a].updatedAt >= n.BookOf(d)[a].updatedAt
    && (count > 0 ==> n'.BookOf(d)[a].updatedAt > n.BookOf(d)[a].updatedAt)
  }

  lemma RenameOnce(n: Net, d: Device, a: Address, t: Time)
    requires a in n.BookOf(d) && n.BookOf(d)[a].updatedAt < t && StampsBelow(n, t)
    ensures var act := Update(d, a, "", t);
            && Stamped(n, act) && OwnEntriesKept(n, act)
            && OnlyRenamed(n, Next(n, act), d, a, 1)
            && Next(n, act).BookOf(d)[a].updatedAt == t
            && StampsBelow(Next(n, act), t + 1)
  {
    assert Next(n, Update(d, a, "", t)).BookOf(d) == n.BookOf(d)[a := Renamed(n.BookOf(d)[a], "", d, t)];
  }

  lemma RenamedTwice(n: Net, m: Net, n': Net, d: Device, a: Address, count: nat)
    requires a in n.BookOf(d) && OnlyRenamed(n, m, d, a, 1) && OnlyRenamed(m, n', d, a, count)
    ensures OnlyRenamed(n, n', d, a, count + 1)
  {
    forall e
      ensures n'.BookOf(d)[a].clock.Get(e) == n.BookOf(d)[a].clock.Get(e) + if e == d then count + 1 else 0
    {
      assert m.BookOf(d)[a].clock.Get(e) == n.BookOf(d)[a].clock.Get(e) + if e == d then 1 else 0;
    }
  }

  lemma {:induction false} RenamesRun(n: Net, d: Device, a: Address, count: nat, t: Time)
    requires a in n.BookOf(d) && n.BookOf(d)[a].updatedAt < t && StampsBelow(n, t)
    ensures GuardedRun(n, Renames(d, a, count, t))
    ensures OnlyRenamed(n, Run(n, Renames(d, a, count, t)), d, a, count)
    decreases count
  {
    if count > 0 {
      var act := Update(d, a, "", t);
      var acts := Renames(d, a, count, t);
      RenameOnce(n, d, a, t);
      assert acts[0] == act && acts[1..] == Renames(d, a, count - 1, t + 1);
      RenamesRun(Next(n, act), d, a, count - 1, t + 1);
      RenamedTwice(n, Next(n, act), Run(n, acts), d, a, count - 1);
    }
  }

  lemma {:induction false} LateStamp(log: map<Write, SyncedContact>, keys: set<Write>) returns (t: Time)
    requires keys <= log.Keys
    ensures forall w :: w in keys ==> log[w].updatedAt < t
    decreases keys
  {
    if keys == {} {
      t := 0;
    } else {
      var w :| w in keys;
      t := LateStamp(log, keys - {w});
      t := if t <= log[w].updatedAt then log[w].updatedAt + 1 else t;
    }
  }

  // ---- The split ----

  /** `l` was overwritten by the concurrent, newer `r`, which lacks own writes of `d`; `x` is `r` after `d`
      has written the missing counts again. Merging `l` into `x` and into `r` gives equal clocks over
      different content. */
  lemma CopiesSplit(l: SyncedContact, r: SyncedContact, x: SyncedContact, d: Device)
    requires OverwritesConcurrent(l, r, KeepNewer) && r.clock.Get(d) < l.clock.Get(d)
    requires forall e :: x.clock.Get(e) == if e == d then l.clock.Get(d) else r.clock.Get(e)
    requires x.updatedAt > r.updatedAt
    ensures !TakesRemote(x, l, KeepNewer) && !TakesRemote(r, l, KeepNewer)
    ensures SameClock(MergeCopy(x, l, KeepNewer).clock, MergeCopy(r, l, KeepNewer).clock)
    ensures Content(MergeCopy(x, l, KeepNewer)) != Content(MergeCopy(r, l, KeepNewer))
  {
    var e :| l.clock.Get(e) < r.clock.Get(e);
    assert l.clock.Get(e) < x.clock.Get(e);
    assert Content(MergeCopy(x, l, KeepNewer)).updatedAt == x.updatedAt;
    assert Content(MergeCopy(r, l, KeepNewer)).updatedAt == r.updatedAt;
  }

  /** Merging one's own older book back in never overwrites a concurrent copy. */
  lemma MergeBackKeeps(l: SyncedContact, r: SyncedContact)
    ensures !OverwritesConcurrent(MergeCopy(l, r, KeepNewer), l, KeepNewer)
  {
    MergedClockIsJoinIff(l, r, KeepNewer);
  }

  lemma ThreeSteps(n: Net, x: Action, y: Action, z: Action)
    ensures Run(n, [x, y, z]) == Next(Next(Next(n, x), y), z)
    ensures GuardedRun(n, [x, y, z]) <==>
            && Stamped(n, x) && OwnEntriesKept(n, x)
            && Stamped(Next(n, x), y) && OwnEntriesKept(Next(n, x), y)
            && Stamped(Next(Next(n, x), y), z) && OwnEntriesKept(Next(Next(n, x), y), z)
  {
    var n1, n2 := Next(n, x), Next(Next(n, x), y);
    assert [x, y, z][1..] == [y, z] && [y, z][1..] == [z] && [z][1..] == [];
    assert Run(n, [x, y, z]) == Run(n1, [y, z]) && Run(n1, [y, z]) == Run(n2, [z]);
    assert Run(n2, [z]) == Run(Next(n2, z), []) == Next(n2, z);
    assert GuardedRun(n2, [z]) <==> Stamped(n2, z) && OwnEntriesKept(n2, z);
    assert GuardedRun(n1, [y, z]) <==> Stamped(n1, y) && OwnEntriesKept(n1, y) && GuardedRun(n2, [z]);
  }

  function SplitTail(d: Device, g: Device, stale: Book, remote: Book): seq<Action> {
    [Merge(d, stale, KeepNewer), Merge(g, remote, KeepNewer), Merge(g, stale, KeepNewer)]
  }

  lemma MergedIntoEmpty(remote: Book)
    ensures Merged(map[], remote, KeepNewer) == remote
  {
  }

  lemma TailBooks(n: Net, d: Device, g: Device, stale: Book, remote: Book)
    requires g != d && n.BookOf(g) == map[]
    ensures var n2 := Next(n, Merge(d, stale, KeepNewer));
            var n3 := Next(n2, Merge(g, remote, KeepNewer));
            var n4 := Next(n3, Merge(g, stale, KeepNewer));
            && n2.BookOf(g) == map[] && n3.BookOf(g) == remote
            && n4.BookOf(d) == Merged(n.BookOf(d), stale, KeepNewer) && n4.BookOf(d) in n4.past
            && n4.BookOf(g) == Merged(remote, stale, KeepNewer) && n4.BookOf(g) in n4.past
  {
    MergedIntoEmpty(remote);
  }

  lemma TailIsGuarded(n: Net, d: Device, g: Device, stale: Book, remote: Book)
    requires stale in n.past && remote in n.past && g != d && n.BookOf(g) == map[]
    requires forall k :: k in n.BookOf(d) && k in stale ==> !OverwritesConcurrent(n.BookOf(d)[k], stale[k], KeepNewer)
    requires forall k :: k in remote ==> remote[k].clock.Get(g) == 0
    ensures GuardedRun(n, SplitTail(d, g, stale, remote))
    ensures var n' := Run(n, SplitTail(d, g, stale, remote));
            && n'.BookOf(d) == Merged(n.BookOf(d), stale, KeepNewer) && n'.BookOf(d) in n'.past
            && n'.BookOf(g) == Merged(remote, stale, KeepNewer) && n'.BookOf(g) in n'.past
  {
    var tail := SplitTail(d, g, stale, remote);
    TailBooks(n, d, g, stale, remote);
    ThreeSteps(n, tail[0], tail[1], tail[2]);
  }

  /** The copies of `a` that both books hold have equal clocks and different content. */
  ghost predicate SplitOn(b: Book, b': Book, a: Address) {
    a in b && a in b' && SameClock(b[a].clock, b'[a].clock) && Content(b[a]) != Content(b'[a])
  }

  /** Merging either book into the other, under any policy, leaves the split as it is. */
  lemma SplitSurvivesMerge(b: Book, b': Book, a: Address, policy: ConflictResolution)
    requires SplitOn(b, b', a)
    ensures SplitOn(Merged(b, b', policy), b', a)
    ensures SplitOn(b, Merged(b', b, policy), a)
  {
    assert !TakesRemote(b[a], b'[a], policy) && !TakesRemote(b'[a], b[a], policy);
  }

  /** One merge between two books: into the first, or into the second. */
  datatype Exchange = IntoFirst(policy: ConflictResolution) | IntoSecond(policy: ConflictResolution)

  ghost function Exchanged(b: Book, b': Book, steps: seq<Exchange>): (Book, Book)
    decreases |steps|
  {
    if steps == [] then (b, b')
    else match steps[0]
      case IntoFirst(policy) => Exchanged(Merged(b, b', policy), b', steps[1..])
      case IntoSecond(policy) => Exchanged(b, Merged(b', b, policy), steps[1..])
  }

  /** A split is permanent: no sequence of merges between the two books, under any policies, ends it. */
  lemma {:induction false} SplitIsPermanent(b: Book, b': Book, a: Address, steps: seq<Exchange>)
    requires SplitOn(b, b', a)
    ensures SplitOn(Exchanged(b, b', steps).0, Exchanged(b, b', steps).1, a)
    decreases |steps|
  {
    if steps != [] {
      SplitSurvivesMerge(b, b', a, steps[0].policy);
      match steps[0]
      case IntoFirst(policy) => SplitIsPermanent(Merged(b, b', policy), b', a, steps[1..]);
      case IntoSecond(policy) => SplitIsPermanent(b, Merged(b', b, policy), a, steps[1..]);
    }
  }

  /** `x` at `d` after the lossy merge of `remote` over `stale` and the renames. */
  ghost predicate Rewritten(stale: Book, remote: Book, d: Device, a: Address, x: SyncedContact) {
    && a in stale && a in remote
    && OverwritesConcurrent(stale[a], remote[a], KeepNewer)
    && remote[a].clock.Get(d) < stale[a].clock.Get(d)
    && (forall e :: x.clock.Get(e) == if e == d then stale[a].clock.Get(d) else remote[a].clock.Get(e))
    && x.updatedAt > remote[a].updatedAt
  }

  lemma BooksSplit(stale: Book, remote: Book, d: Device, a: Address, x: SyncedContact)
    requires Rewritten(stale, remote, d, a, x)
    ensures SplitOn(Merged(Merged(stale, remote, KeepNewer)[a := x], stale, KeepNewer),
                    Merged(remote, stale, KeepNewer), a)
  {
    CopiesSplit(stale[a], remote[a], x, d);
  }

  lemma MergingBackIsGuarded(stale: Book, remote: Book, d: Device, a: Address, x: SyncedContact, k: Address)
    requires Rewritten(stale, remote, d, a, x)
    requires k in stale
    ensures var b := Merged(stale, remote, KeepNewer)[a := x];
            k in b && !OverwritesConcurrent(b[k], stale[k], KeepNewer)
  {
    if k == a {
      CopiesSplit(stale[a], remote[a], x, d);
    } else if k in remote {
      MergeBackKeeps(stale[k], remote[k]);
    }
  }

  lemma MergingAllBackIsGuarded(stale: Book, remote: Book, d: Device, a: Address, x: SyncedContact)
    requires Rewritten(stale, remote, d, a, x)
    ensures var b := Merged(stale, remote, KeepNewer)[a := x];
            forall k :: k in b && k in stale ==> !OverwritesConcurrent(b[k], stale[k], KeepNewer)
  {
    forall k | k in stale
      ensures var b := Merged(stale, remote, KeepNewer)[a := x];
              k in b && !OverwritesConcurrent(b[k], stale[k], KeepNewer)
    {
      MergingBackIsGuarded(stale, remote, d, a, x, k);
    }
  }

  /** No clock has an entry for a device that has not acted. */
  lemma NotYetActed(n: Net, remote: Book, g: Device)
    requires CausalBound(n) && remote in n.past && n.BookOf(g) == map[]
    ensures forall k :: k in remote ==> remote[k].clock.Get(g) == 0
  {
    forall k | k in remote
      ensures remote[k].clock.Get(g) == 0
    {
      assert remote[k].clock.Get(g) <= n.Own(g, k);
    }
  }

  lemma LossyMergeOf(n: Net, d: Device, remote: Book, a: Address)
    requires !OwnEntryKept(n, d, remote, KeepNewer, a)
    ensures Next(n, Merge(d, remote, KeepNewer)).BookOf(d) == Merged(n.BookOf(d), remote, KeepNewer)
    ensures Merged(n.BookOf(d), remote, KeepNewer)[a] == remote[a]
  {
    MergedClockIsJoinIff(n.BookOf(d)[a], remote[a], KeepNewer);
  }

  /** The renames after the lossy merge make the copy `Rewritten` speaks of. */
  lemma RenamesRewrite(n1: Net, stale: Book, d: Device, remote: Book, a: Address, t: Time)
    returns (acts: seq<Action>, x: SyncedContact)
    requires a in stale && a in remote && OverwritesConcurrent(stale[a], remote[a], KeepNewer)
    requires remote[a].clock.Get(d) < stale[a].clock.Get(d)
    requires a in n1.BookOf(d) && n1.BookOf(d)[a] == remote[a]
    requires StampsBelow(n1, t) && remote[a].updatedAt < t
    ensures GuardedRun(n1, acts)
    ensures n1.past <= Run(n1, acts).past
    ensures forall e :: e != d ==> Run(n1, acts).BookOf(e) == n1.BookOf(e)
    ensures Run(n1, acts).BookOf(d) == n1.BookOf(d)[a := x]
    ensures Rewritten(stale, remote, d, a, x)
  {
    var count := stale[a].clock.Get(d) - remote[a].clock.Get(d);
    acts := Renames(d, a, count, t);
    RenamesRun(n1, d, a, count, t);
    var n2 := Run(n1, acts);
    x := n2.BookOf(d)[a];
    assert forall e :: x.clock.Get(e) == remote[a].clock.Get(e) + if e == d then count else 0;
  }

  lemma StampAbove(n: Net, remote: Book, a: Address) returns (t: Time)
    requires Historic(n) && remote in n.past && a in remote
    ensures StampsBelow(n, t) && remote[a].updatedAt < t
  {
    t := LateStamp(n.log, n.log.Keys);
    assert LatestBook(n.log, remote);
    var w :| InHistory(remote[a], w) && w in n.log && n.log[w] == Content(remote[a]);
  }

  /** A merge that lowers an own entry has a guarded continuation that does not converge. */
  lemma LostEntrySplits(n: Net, d: Device, remote: Book, a: Address) returns (acts: seq<Action>)
    requires Historic(n) && remote in n.past && !OwnEntryKept(n, d, remote, KeepNewer, a)
    ensures GuardedRun(Next(n, Merge(d, remote, KeepNewer)), acts)
    ensures !Converged(Run(Next(n, Merge(d, remote, KeepNewer)), acts))
  {
    var g := IdleDevice(n, d);
    var t := StampAbove(n, remote, a);
    acts := SplitFrom(n, d, remote, a, g, t);
  }

  lemma SplitFrom(n: Net, d: Device, remote: Book, a: Address, g: Device, t: Time) returns (acts: seq<Action>)
    requires CausalBound(n) && remote in n.past && !OwnEntryKept(n, d, remote, KeepNewer, a)
    requires g != d && n.BookOf(g) == map[]
    requires StampsBelow(n, t) && remote[a].updatedAt < t
    ensures GuardedRun(Next(n, Merge(d, remote, KeepNewer)), acts)
    ensures !Converged(Run(Next(n, Merge(d, remote, KeepNewer)), acts))
  {
    var n1 := Next(n, Merge(d, remote, KeepNewer));
    var stale := n.BookOf(d);
    assert stale in n.past;
    LossyMergeOf(n, d, remote, a);
    var renames, x := RenamesRewrite(n1, stale, d, remote, a, t);
    var n2 := Run(n1, renames);
    MergingAllBackIsGuarded(stale, remote, d, a, x);
    NotYetActed(n, remote, g);
    TailIsGuarded(n2, d, g, stale, remote);
    acts := renames + SplitTail(d, g, stale, remote);
    RunAppend(n1, renames, SplitTail(d, g, stale, remote));
    BooksSplit(stale, remote, d, a, x);
    SplitNotConverged(Run(n1, acts), d, g, a);
  }

  lemma SplitNotConverged(n: Net, d: Device, g: Device, a: Address)
    requires n.BookOf(d) in n.past && n.BookOf(g) in n.past && SplitOn(n.BookOf(d), n.BookOf(g), a)
    ensures !Converged(n)
  {
    assert !Consistent(n.BookOf(d), n.BookOf(g));
  }

  lemma GuaranteedIff(n: Net, act: Action)
    requires Historic(n) && act.Merge? && Stamped(n, act)
    ensures OwnEntriesKept(n, act)
            <==> forall acts :: GuardedRun(Next(n, act), acts) ==> Converged(Run(Next(n, act), acts))
  {
    if OwnEntriesKept(n, act) {
      StepKeepsHistoric(n, act);
      forall acts | GuardedRun(Next(n, act), acts)
        ensures Converged(Run(Next(n, act), acts))
      {
        GuardedRunsAreHistoric(Next(n, act), acts);
        HistoricConverged(Run(Next(n, act), acts));
      }
    } else {
      var a :| !OwnEntryKept(n, act.device, act.remote, act.policy, a);
      var acts := LostEntrySplits(n, act.device, act.remote, a);
    }
  }

  lemma InitHistoric()
    ensures Historic(INIT)
  {
  }

  /** After any guarded run and one more KeepNewer merge, every guarded continuation converges exactly when
      that merge keeps the merging device's own entries. */
  lemma ConvergenceGuaranteedIff(before: seq<Action>, act: Action)
    requires GuardedRun(INIT, before) && act.Merge? && Stamped(Run(INIT, before), act)
    ensures var n := Run(INIT, before);
            OwnEntriesKept(n, act)
            <==> forall acts :: GuardedRun(Next(n, act), acts) ==> Converged(Run(Next(n, act), acts))
  {
    InitHistoric();
    GuardedRunsAreHistoric(INIT, before);
    GuaranteedIff(Run(INIT, before), act);
  }

  // ---- A concrete failing run ----

  /** Two devices add one address; the earlier writer merges the later book and loses its own entry. */
  ghost function SplitStart(): seq<Action> {
    [Add("d", "a", "x", 1), Add("e", "a", "y", 2)]
  }

  lemma SplitStartGuarded()
    ensures GuardedRun(INIT, SplitStart())
    ensures Run(INIT, SplitStart()) == Next(Next(INIT, SplitStart()[0]), SplitStart()[1])
  {
    var start := SplitStart();
    var n1 := Next(INIT, start[0]);
    assert start[1..] == [start[1]] && start[1..][1..] == [];
    assert n1.BookOf("e") == map[];
    assert GuardedRun(n1, start[1..]) && Run(n1, start[1..]) == Next(n1, start[1]);
  }

  /** The network after `SplitStart`. */
  lemma SplitStartRun()
    ensures var n := Run(INIT, SplitStart());
            && n.BookOf("d") == map["a" := NewContact("a", "x", "d", 1)]
            && map["a" := NewContact("a", "y", "e", 2)] in n.past
  {
    SplitStartGuarded();
    assert Next(INIT, SplitStart()[0]).BookOf("e") == map[];
  }

  lemma SplitStartLosesEntry(n: Net)
    requires n.BookOf("d") == map["a" := NewContact("a", "x", "d", 1)]
    ensures !OwnEntryKept(n, "d", map["a" := NewContact("a", "y", "e", 2)], KeepNewer, "a")
  {
    var l, r := NewContact("a", "x", "d", 1), NewContact("a", "y", "e", 2);
    assert l.clock.Get("d") == 1 && r.clock.Get("d") == 0 && l.clock.Get("e") == 0 && r.clock.Get("e") == 1;
  }

  /** KeepNewer and good stamps alone do not give convergence: `SplitStart`, then the merge of e's book
      into d's, then the continuation of `LostEntrySplits`. */
  lemma KeepNewerAloneDoesNotConverge() returns (acts: seq<Action>)
    ensures StampedRun(INIT, acts) && !Converged(Run(INIT, acts))
    ensures SplitStart() + [Merge("d", map["a" := NewContact("a", "y", "e", 2)], KeepNewer)] <= acts
  {
    var start := SplitStart();
    var n := Run(INIT, start);
    var act := Merge("d", map["a" := NewContact("a", "y", "e", 2)], KeepNewer);
    SplitStartRun();
    SplitStartLosesEntry(n);
    InitHistoric();
    SplitStartGuarded();
    GuardedRunsAreHistoric(INIT, start);
    var more := LostEntrySplits(n, "d", act.remote, "a");
    acts := StampedPrefix(start, act, more);
  }

  lemma StampedPrefix(start: seq<Action>, act: Action, more: seq<Action>) returns (acts: seq<Action>)
    requires GuardedRun(INIT, start)
    requires Stamped(Run(INIT, start), act) && GuardedRun(Next(Run(INIT, start), act), more)
    ensures StampedRun(INIT, acts) && start + [act] <= acts
    ensures Run(INIT, acts) == Run(Next(Run(INIT, start), act), more)
  {
    var n := Run(INIT, start);
    GuardedIsStamped(INIT, start);
    GuardedIsStamped(Next(n, act), more);
    assert ([act] + more)[1..] == more;
    acts := start + ([act] + more);
    RunAppend(INIT, start, [act] + more);
  }
}
