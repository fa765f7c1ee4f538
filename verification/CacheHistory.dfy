/** Every run of the cache manager against a plain timed map that never evicts and never forgets. */
module CacheHistory {
  import opened Wrappers
  import opened WallClock
  import opened Arithmetic
  import opened CacheManager

  /** The reference: per cache, the entries an unbounded map would hold since the cache was created, expired
      ones included, and the keys ever put; and the latest time any call has read. */
  datatype Reference = Reference(tables: map<string, Cache>, keysPut: map<string, set<string>>, clock: Time)

  function Clock(r: Reference, call: Call): Time {
    if (call.Put? || call.Get? || call.EvictExpired?) && r.clock < call.now then call.now else r.clock
  }

  /** The reference after one call. `s` only tells which caches exist and how they are configured. */
  function RefNext(r: Reference, s: Caches, call: Call): Reference {
    var r := r.(clock := Clock(r, call));
    match call
    case Create(config) =>
      if config.id in s.configs then r
      else r.(tables := r.tables[config.id := map[]], keysPut := r.keysPut[config.id := {}])
    case Remove(id) => if id !in s.configs then r else r.(tables := r.tables - {id}, keysPut := r.keysPut - {id})
    case Put(id, key, value, ttl, now, _) =>
      if id !in s.configs || id !in r.tables || id !in r.keysPut then r
      else r.(tables := r.tables[id := r.tables[id][key := NewEntry(s.configs[id], key, value, ttl, now)]],
              keysPut := r.keysPut[id := r.keysPut[id] + {key}])
    case Get(id, key, now) =>
      if id !in r.tables || key !in r.tables[id] || Expired(r.tables[id][key], now) then r
      else r.(tables := r.tables[id := r.tables[id][key := Touched(r.tables[id][key], now)]])
    case Invalidate(id, key) =>
      if id !in r.tables then r else r.(tables := r.tables[id := r.tables[id] - {key}])
    case InvalidateAll(id) =>
      if id !in r.tables then r else r.(tables := r.tables[id := map[]])
    case EvictExpired(_) => r
  }

  /** A lookup in the timed map: the latest put not since invalidated, unless it has expired. */
  function Lookup(r: Reference, id: string, key: string, now: Time): Option<string> {
    if id in r.tables && key in r.tables[id] && !Expired(r.tables[id][key], now) then Some(r.tables[id][key].value)
    else None
  }

  ghost predicate SubMap(c: Cache, c': Cache) {
    forall k :: k in c ==> k in c' && c[k] == c'[k]
  }

  /** Everything the timed map holds beyond the cache has expired. */
  ghost predicate OnlyExpiredMissing(c: Cache, c': Cache, now: Time) {
    forall k :: k in c' && k !in c ==> Expired(c'[k], now)
  }

  /** One cache against its part of the reference, whatever the clock does. */
  ghost predicate Agrees(c: Cache, max: nat, table: Cache, keys: set<string>) {
    |c| <= Max(max, 1) && SubMap(c, table) && table.Keys <= keys
  }

  /** A cache that was never given more keys than it has room for lacks only what has expired. */
  ghost predicate Complete(c: Cache, max: nat, table: Cache, keys: set<string>, clock: Time) {
    |keys| <= max ==> OnlyExpiredMissing(c, table, clock)
  }

  ghost predicate Inv(s: Caches, r: Reference) {
    && s.configs.Keys == s.entries.Keys == r.tables.Keys == r.keysPut.Keys
    && forall id :: id in s.configs ==> Agrees(s.entries[id], s.configs[id].maxEntries, r.tables[id], r.keysPut[id])
  }

  ghost predicate AllComplete(s: Caches, r: Reference)
    requires Inv(s, r)
  {
    forall id :: id in s.configs ==>
      Complete(s.entries[id], s.configs[id].maxEntries, r.tables[id], r.keysPut[id], r.clock)
  }

  // ---- One cache ----

  lemma {:induction false} FitsWithin(s: set<string>, t: set<string>)
    requires s <= t
    ensures |s| <= |t|
  {
    if s != {} {
      var x :| x in s;
      FitsWithin(s - {x}, t - {x});
    }
  }

  lemma CacheSize(c: Cache, key: string, e: CacheEntry)
    ensures |c| == |c.Keys|
    ensures |c[key := e]| == |c| + if key in c then 0 else 1
    ensures key in c ==> |c - {key}| == |c| - 1
    ensures key !in c ==> c - {key} == c
  {
    assert c[key := e].Keys == c.Keys + {key};
    assert (c - {key}).Keys == c.Keys - {key};
  }

  /** What a put leaves in the cache before it inserts: everything, or all but one entry of a full cache. */
  ghost predicate IsBase(base: Cache, c: Cache, max: nat, key: string) {
    if |c| >= max && key !in c && c != map[] then exists v :: v in c && base == c - {v} else base == c
  }

  lemma PutSize(c: Cache, max: nat, base: Cache, key: string, e: CacheEntry)
    requires |c| <= Max(max, 1) && IsBase(base, c, max, key)
    ensures |base[key := e]| <= Max(max, 1)
  {
    CacheSize(base, key, e);
    if |c| >= max && key !in c && c != map[] {
      var v :| v in c && base == c - {v};
      CacheSize(c, v, e);
    } else if c == map[] {
      assert |c| == 0;
    }
  }

  lemma PutAgrees(c: Cache, max: nat, table: Cache, keys: set<string>, base: Cache, key: string, e: CacheEntry)
    requires Agrees(c, max, table, keys) && IsBase(base, c, max, key)
    ensures Agrees(base[key := e], max, table[key := e], keys + {key})
  {
    PutSize(c, max, base, key, e);
    assert SubMap(base, c);
  }

  lemma PutComplete(c: Cache, max: nat, table: Cache, keys: set<string>, base: Cache, key: string, e: CacheEntry,
                    clock: Time, now: Time)
    requires Agrees(c, max, table, keys) && Complete(c, max, table, keys, clock) && clock <= now
    requires IsBase(base, c, max, key)
    ensures Complete(base[key := e], max, table[key := e], keys + {key}, now)
  {
    if |keys + {key}| <= max {
      FitsWithin(keys, keys + {key});
      FitsWithin(c.Keys + {key}, keys + {key});
      CacheSize(c, key, e);
      assert base == c;
    }
  }

  function Read(c: Cache, key: string, now: Time): Cache {
    if key !in c || Expired(c[key], now) then c else c[key := Touched(c[key], now)]
  }

  function ReadOrDrop(c: Cache, key: string, now: Time): Cache {
    if key in c && Expired(c[key], now) then c - {key} else Read(c, key, now)
  }

  lemma GetAgrees(c: Cache, max: nat, table: Cache, keys: set<string>, key: string, now: Time)
    requires Agrees(c, max, table, keys)
    ensures Agrees(ReadOrDrop(c, key, now), max, Read(table, key, now), keys)
  {
    if key in c {
      CacheSize(c, key, Touched(c[key], now));
    }
  }

  lemma GetComplete(c: Cache, max: nat, table: Cache, keys: set<string>, key: string, now: Time, clock: Time,
                    clock': Time)
    requires SubMap(c, table) && Complete(c, max, table, keys, clock) && clock <= clock' && now <= clock'
    ensures Complete(ReadOrDrop(c, key, now), max, Read(table, key, now), keys, clock')
  {
  }

  lemma DropAgrees(c: Cache, max: nat, table: Cache, keys: set<string>, key: string)
    requires Agrees(c, max, table, keys)
    ensures Agrees(c - {key}, max, table - {key}, keys)
  {
    if key in c {
      CacheSize(c, key, c[key]);
    } else {
      assert c - {key} == c;
    }
  }

  lemma RetainAgrees(c: Cache, max: nat, table: Cache, keys: set<string>, now: Time)
    requires Agrees(c, max, table, keys)
    ensures Agrees(Retained(c, now), max, table, keys)
  {
    FitsWithin(Retained(c, now).Keys, c.Keys);
    assert |Retained(c, now)| == |Retained(c, now).Keys| && |c| == |c.Keys|;
  }

  // ---- What a call does to one cache and its table ----

  predicate Targets(call: Call, id: string) {
    match call
    case Put(i, _, _, _, _, _) => i == id
    case Get(i, _, _) => i == id
    case Invalidate(i, _) => i == id
    case InvalidateAll(i) => i == id
    case EvictExpired(_) => true
    case _ => false
  }

  function CacheNext(c: Cache, config: CacheConfig, call: Call): Cache {
    match call
    case Put(_, key, value, ttl, now, victim) =>
      (if AtCapacity(c, config, key) then Without(c, victim) else c)[key := NewEntry(config, key, value, ttl, now)]
    case Get(_, key, now) => ReadOrDrop(c, key, now)
    case Invalidate(_, key) => c - {key}
    case InvalidateAll(_) => map[]
    case EvictExpired(now) => Retained(c, now)
    case _ => c
  }

  function TableNext(table: Cache, config: CacheConfig, call: Call): Cache {
    match call
    case Put(_, key, value, ttl, now, _) => table[key := NewEntry(config, key, value, ttl, now)]
    case Get(_, key, now) => Read(table, key, now)
    case Invalidate(_, key) => table - {key}
    case InvalidateAll(_) => map[]
    case _ => table
  }

  function KeysNext(keys: set<string>, call: Call): set<string> {
    if call.Put? then keys + {call.key} else keys
  }

  lemma NextAt(s: Caches, call: Call, id: string)
    requires s.configs.Keys == s.entries.Keys && id in s.configs && id in Next(s, call).configs
    ensures Next(s, call).configs[id] == s.configs[id] && id in Next(s, call).entries
    ensures Next(s, call).entries[id]
            == if Targets(call, id) then CacheNext(s.entries[id], s.configs[id], call) else s.entries[id]
  {
  }

  lemma RefNextAt(s: Caches, r: Reference, call: Call, id: string)
    requires s.configs.Keys == r.tables.Keys == r.keysPut.Keys && id in s.configs && id in Next(s, call).configs
    ensures id in RefNext(r, s, call).tables && id in RefNext(r, s, call).keysPut
    ensures RefNext(r, s, call).tables[id]
            == if Targets(call, id) then TableNext(r.tables[id], s.configs[id], call) else r.tables[id]
    ensures RefNext(r, s, call).keysPut[id]
            == if Targets(call, id) then KeysNext(r.keysPut[id], call) else r.keysPut[id]
  {
  }

  /** `Legal`, for one cache. */
  ghost predicate LegalPut(c: Cache, config: CacheConfig, call: Call) {
    call.Put? && AtCapacity(c, config, call.key) ==>
      if c == map[] then call.victim.None? else call.victim.Some? && call.victim.value in c
  }

  lemma PutBase(c: Cache, config: CacheConfig, call: Call)
    requires call.Put? && LegalPut(c, config, call)
    ensures IsBase(if AtCapacity(c, config, call.key) then Without(c, call.victim) else c, c, config.maxEntries,
                   call.key)
  {
  }

  lemma PutCallAgrees(c: Cache, config: CacheConfig, table: Cache, keys: set<string>, call: Call)
    requires call.Put? && Agrees(c, config.maxEntries, table, keys) && LegalPut(c, config, call)
    ensures Agrees(CacheNext(c, config, call), config.maxEntries, TableNext(table, config, call), keys + {call.key})
  {
    PutBase(c, config, call);
    PutAgrees(c, config.maxEntries, table, keys, if AtCapacity(c, config, call.key) then Without(c, call.victim) else c,
              call.key, NewEntry(config, call.key, call.value, call.ttl, call.now));
  }

  lemma CallAgrees(c: Cache, config: CacheConfig, table: Cache, keys: set<string>, call: Call)
    requires Agrees(c, config.maxEntries, table, keys) && LegalPut(c, config, call)
    ensures Agrees(CacheNext(c, config, call), config.maxEntries, TableNext(table, config, call), KeysNext(keys, call))
  {
    match call
    case Put(_, _, _, _, _, _) => PutCallAgrees(c, config, table, keys, call);
    case Get(_, key, now) => GetAgrees(c, config.maxEntries, table, keys, key, now);
    case Invalidate(_, key) => DropAgrees(c, config.maxEntries, table, keys, key);
    case EvictExpired(now) => RetainAgrees(c, config.maxEntries, table, keys, now);
    case _ =>
  }

  lemma CallCompletes(c: Cache, config: CacheConfig, table: Cache, keys: set<string>, call: Call, clock: Time,
                      clock': Time)
    requires Agrees(c, config.maxEntries, table, keys) && LegalPut(c, config, call)
    requires Complete(c, config.maxEntries, table, keys, clock) && clock <= clock'
    requires call.Put? || call.Get? || call.EvictExpired? ==> call.now <= clock'
    ensures Complete(CacheNext(c, config, call), config.maxEntries, TableNext(table, config, call),
                     KeysNext(keys, call), clock')
  {
    match call
    case Put(_, key, value, ttl, now, victim) =>
      PutBase(c, config, call);
      PutComplete(c, config.maxEntries, table, keys, if AtCapacity(c, config, key) then Without(c, victim) else c,
                  key, NewEntry(config, key, value, ttl, now), clock, clock');
    case Get(_, key, now) => GetComplete(c, config.maxEntries, table, keys, key, now, clock, clock');
    case _ =>
  }

  // ---- All caches ----

  lemma SameIds(s: Caches, r: Reference, call: Call)
    requires s.configs.Keys == s.entries.Keys == r.tables.Keys == r.keysPut.Keys
    ensures Next(s, call).configs.Keys == Next(s, call).entries.Keys
    ensures RefNext(r, s, call).tables.Keys == RefNext(r, s, call).keysPut.Keys == Next(s, call).configs.Keys
  {
    match call
    case Create(config) =>
    case Remove(id) =>
    case _ => OtherCallsKeepIds(s, r, call);
  }

  lemma OtherCallsKeepIds(s: Caches, r: Reference, call: Call)
    requires s.configs.Keys == s.entries.Keys == r.tables.Keys == r.keysPut.Keys && !call.Create? && !call.Remove?
    ensures Next(s, call).configs == s.configs && Next(s, call).entries.Keys == s.entries.Keys
    ensures RefNext(r, s, call).tables.Keys == r.tables.Keys && RefNext(r, s, call).keysPut.Keys == r.keysPut.Keys
  {
    NextKeepsIds(s, call);
  }

  lemma NextKeepsIds(s: Caches, call: Call)
    requires !call.Create? && !call.Remove?
    ensures Next(s, call).configs == s.configs && Next(s, call).entries.Keys == s.entries.Keys
  {
  }

  lemma CreatedEmpty(s: Caches, r: Reference, call: Call, id: string)
    requires s.configs.Keys == s.entries.Keys == r.tables.Keys == r.keysPut.Keys
    requires id !in s.configs && id in Next(s, call).configs
    ensures id in Next(s, call).entries && Next(s, call).entries[id] == map[]
    ensures id in RefNext(r, s, call).tables && RefNext(r, s, call).tables[id] == map[]
    ensures id in RefNext(r, s, call).keysPut
  {
  }

  lemma StepAgrees(s: Caches, r: Reference, call: Call, id: string)
    requires Inv(s, r) && Legal(s, call) && id in Next(s, call).configs
    ensures var s', r' := Next(s, call), RefNext(r, s, call);
            && id in s'.entries && id in r'.tables && id in r'.keysPut
            && Agrees(s'.entries[id], s'.configs[id].maxEntries, r'.tables[id], r'.keysPut[id])
  {
    if id in s.configs {
      NextAt(s, call, id);
      RefNextAt(s, r, call, id);
      if Targets(call, id) {
        CallAgrees(s.entries[id], s.configs[id], r.tables[id], r.keysPut[id], call);
      }
    } else {
      CreatedEmpty(s, r, call, id);
    }
  }

  lemma StepKeepsInv(s: Caches, r: Reference, call: Call)
    requires Inv(s, r) && Legal(s, call)
    ensures Inv(Next(s, call), RefNext(r, s, call))
  {
    var s', r' := Next(s, call), RefNext(r, s, call);
    SameIds(s, r, call);
    forall id | id in s'.configs
      ensures Agrees(s'.entries[id], s'.configs[id].maxEntries, r'.tables[id], r'.keysPut[id])
    {
      StepAgrees(s, r, call, id);
    }
  }

  /** `c`, `table` and `keys` are what a call makes of the cache `id`. */
  lemma CallOrNotCompletes(s: Caches, r: Reference, call: Call, id: string, c: Cache, table: Cache, keys: set<string>)
    requires Inv(s, r) && AllComplete(s, r) && Legal(s, call) && id in s.configs
    requires c == if Targets(call, id) then CacheNext(s.entries[id], s.configs[id], call) else s.entries[id]
    requires table == if Targets(call, id) then TableNext(r.tables[id], s.configs[id], call) else r.tables[id]
    requires keys == if Targets(call, id) then KeysNext(r.keysPut[id], call) else r.keysPut[id]
    ensures Complete(c, s.configs[id].maxEntries, table, keys, Clock(r, call))
  {
    assert Complete(s.entries[id], s.configs[id].maxEntries, r.tables[id], r.keysPut[id], r.clock);
    if Targets(call, id) {
      CallCompletes(s.entries[id], s.configs[id], r.tables[id], r.keysPut[id], call, r.clock, Clock(r, call));
    }
  }

  lemma OldCacheCompletes(s: Caches, r: Reference, call: Call, id: string)
    requires Inv(s, r) && AllComplete(s, r) && Legal(s, call) && id in s.configs && id in Next(s, call).configs
    ensures id in Next(s, call).entries && id in RefNext(r, s, call).tables && id in RefNext(r, s, call).keysPut
    ensures Next(s, call).configs[id] == s.configs[id]
    ensures Complete(Next(s, call).entries[id], s.configs[id].maxEntries, RefNext(r, s, call).tables[id],
                     RefNext(r, s, call).keysPut[id], Clock(r, call))
  {
    NextAt(s, call, id);
    RefNextAt(s, r, call, id);
    CallOrNotCompletes(s, r, call, id, Next(s, call).entries[id], RefNext(r, s, call).tables[id],
                       RefNext(r, s, call).keysPut[id]);
  }

  lemma ClockNext(s: Caches, r: Reference, call: Call)
    ensures RefNext(r, s, call).clock == Clock(r, call)
  {
  }

  lemma StepCompletes(s: Caches, r: Reference, call: Call, id: string)
    requires Inv(s, r) && AllComplete(s, r) && Legal(s, call) && id in Next(s, call).configs
    ensures var s', r' := Next(s, call), RefNext(r, s, call);
            && id in s'.entries && id in r'.tables && id in r'.keysPut
            && Complete(s'.entries[id], s'.configs[id].maxEntries, r'.tables[id], r'.keysPut[id], r'.clock)
  {
    ClockNext(s, r, call);
    if id in s.configs {
      OldCacheCompletes(s, r, call, id);
    } else {
      CreatedEmpty(s, r, call, id);
    }
  }

  // ---- Runs ----

  const EMPTY := Caches(map[], map[], 0, 0, 0)

  /** The caches and the reference after a sequence of calls. */
  function Run(calls: seq<Call>, start: Time): (Caches, Reference) {
    if calls == [] then (EMPTY, Reference(map[], map[], start))
    else
      var (s, r) := Run(calls[..|calls| - 1], start);
      (Next(s, calls[|calls| - 1]), RefNext(r, s, calls[|calls| - 1]))
  }

  /** Every eviction picks a victim its policy allows. */
  ghost predicate LegalRun(calls: seq<Call>, start: Time) {
    calls == [] ||
    var before, call := calls[..|calls| - 1], calls[|calls| - 1];
    LegalRun(before, start) && Legal(Run(before, start).0, call)
  }

  /** In every run the config and entry tables have the same ids, no cache exceeds its bound, and what a cache
      holds, with its read statistics, is what the unbounded timed map holds under that key. */
  lemma {:induction false} RunsKeepInv(calls: seq<Call>, start: Time)
    requires LegalRun(calls, start)
    ensures Inv(Run(calls, start).0, Run(calls, start).1)
  {
    if calls != [] {
      var before := calls[..|calls| - 1];
      RunsKeepInv(before, start);
      StepKeepsInv(Run(before, start).0, Run(before, start).1, calls[|calls| - 1]);
    }
  }

  lemma {:induction false} RunsComplete(calls: seq<Call>, start: Time)
    requires LegalRun(calls, start)
    ensures Inv(Run(calls, start).0, Run(calls, start).1) && AllComplete(Run(calls, start).0, Run(calls, start).1)
  {
    if calls != [] {
      var before, call := calls[..|calls| - 1], calls[|calls| - 1];
      RunsComplete(before, start);
      RunsKeepInv(calls, start);
      var (s, r) := Run(before, start);
      var (s', r') := Run(calls, start);
      forall id | id in s'.configs
        ensures Complete(s'.entries[id], s'.configs[id].maxEntries, r'.tables[id], r'.keysPut[id], r'.clock)
      {
        StepCompletes(s, r, call, id);
      }
    }
  }

  /** Whenever `get` answers with a value, it is the timed map's value: the latest put to that key, not since
      invalidated and not expired. This holds in every run, whatever the clock does. */
  lemma HitsAreCurrent(calls: seq<Call>, start: Time, id: string, key: string, now: Time)
    requires LegalRun(calls, start)
    ensures var (s, r) := Run(calls, start);
            var a := Answer(s, id, key, now);
            a.Ok? && a.value.Some? ==> a.value == Lookup(r, id, key, now)
  {
    RunsKeepInv(calls, start);
    var (s, r) := Run(calls, start);
    if id in s.configs && key in s.entries[id] {
      assert Agrees(s.entries[id], s.configs[id].maxEntries, r.tables[id], r.keysPut[id]);
    }
  }

  /** A cache that was never given more distinct keys than it has room for answers exactly as the timed map,
      however the clock has jumped during the run, to a question not asked before the latest time any call
      has read. */
  lemma RoomyCacheIsTimedMap(calls: seq<Call>, start: Time, id: string, key: string, now: Time)
    requires LegalRun(calls, start)
    requires var (s, r) := Run(calls, start);
             id in s.configs && id in r.keysPut && |r.keysPut[id]| <= s.configs[id].maxEntries && r.clock <= now
    ensures var (s, r) := Run(calls, start);
            Answer(s, id, key, now) == Ok(Lookup(r, id, key, now))
  {
    RunsComplete(calls, start);
    var (s, r) := Run(calls, start);
    assert Agrees(s.entries[id], s.configs[id].maxEntries, r.tables[id], r.keysPut[id]);
    assert OnlyExpiredMissing(s.entries[id], r.tables[id], r.clock);
  }

  /** One cache, one key put at time 0 for one second, and a read at one second, which drops it. */
  function SteppedBack(): seq<Call> {
    [Create(CacheConfig("c", "", Memory, 1, Lru, None)), Put("c", "k", "v", Some(1), 0, None), Get("c", "k", NANOS)]
  }

  /** A question asked before the latest reading can differ: back at time 0 the map still has the value. */
  lemma SteppedBackDiffers()
    ensures LegalRun(SteppedBack(), 0)
    ensures var (s, r) := Run(SteppedBack(), 0);
            Answer(s, "c", "k", 0) == Ok(None) && Lookup(r, "c", "k", 0) == Some("v")
  {
    var calls := SteppedBack();
    assert calls[..2] == [calls[0], calls[1]] && calls[..2][..1] == [calls[0]] && [calls[0]][..0] == [];
    assert LegalRun([], 0) && LegalRun([calls[0]], 0);
    var (s1, r1) := Run([calls[0]], 0);
    var config := CacheConfig("c", "", Memory, 1, Lru, None);
    assert s1.configs == map["c" := config] && s1.entries == map["c" := map[]];
    assert r1.tables == map["c" := map[]] && r1.keysPut == map["c" := {}];
    assert LegalRun(calls[..2], 0);
    var (s2, r2) := Run(calls[..2], 0);
    var e := NewEntry(config, "k", "v", Some(1), 0);
    assert s2.entries["c"] == map["k" := e] && r2.tables["c"] == map["k" := e];
    assert Expired(e, NANOS) && !Expired(e, 0);
  }

  /** A value just put is answered until its time to live, cast to i64 as the source does, has run out: the
      one given with the put, else the cache's default, else for ever. */
  lemma PutIsVisibleUntilExpiry(s: Caches, call: Call, t: Time)
    requires call.Put? && call.id in s.configs && call.id in s.entries
    ensures var dflt := s.configs[call.id].defaultTtlSeconds;
            var live := if call.ttl.Some? then t - call.now < AsI64(call.ttl.value) * NANOS
                        else dflt.Some? ==> t - call.now < AsI64(dflt.value) * NANOS;
            Answer(Next(s, call), call.id, call.key, t) == Ok(if live then Some(call.value) else None)
  {
  }
}
