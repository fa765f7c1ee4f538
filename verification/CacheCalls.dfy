/** What the caches hold, count and evict, read off the sequence of calls. */
module CacheCalls {
  import opened Wrappers
  import opened WallClock
  import opened CacheManager
  import opened CacheHistory

  function Before(calls: seq<Call>): seq<Call>
    requires calls != []
  {
    calls[..|calls| - 1]
  }

  function Latest(calls: seq<Call>): Call
    requires calls != []
  {
    calls[|calls| - 1]
  }

  // ---- Puts, reads and removals of one key ----

  predicate PutsTo(call: Call, id: string, key: string) {
    call.Put? && call.id == id && call.key == key
  }

  predicate Reads(call: Call, id: string, key: string) {
    call.Get? && call.id == id && call.key == key
  }

  /** The latest put to the key. */
  function LatestPut(calls: seq<Call>, id: string, key: string): (r: Option<Call>)
    ensures r.Some? ==> PutsTo(r.value, id, key)
  {
    if calls == [] then None
    else if PutsTo(Latest(calls), id, key) then Some(Latest(calls))
    else LatestPut(Before(calls), id, key)
  }

  /** How often the key was read since its latest put. */
  function ReadsSincePut(calls: seq<Call>, id: string, key: string): nat {
    if calls == [] || PutsTo(Latest(calls), id, key) then 0
    else ReadsSincePut(Before(calls), id, key) + if Reads(Latest(calls), id, key) then 1 else 0
  }

  /** When the key was last read since its latest put. */
  function LastReadSincePut(calls: seq<Call>, id: string, key: string): Option<Time> {
    if calls == [] || PutsTo(Latest(calls), id, key) then None
    else if Reads(Latest(calls), id, key) then Some(Latest(calls).now)
    else LastReadSincePut(Before(calls), id, key)
  }

  predicate PastExpiry(expiry: Option<Time>, now: Time) {
    expiry.Some? && expiry.value <= now
  }

  /** The call removes what is held under the key: with its cache, by invalidation, or because it has expired. */
  predicate Removes(call: Call, id: string, key: string, expiry: Option<Time>) {
    match call
    case Remove(i) => i == id
    case Invalidate(i, k) => i == id && k == key
    case InvalidateAll(i) => i == id
    case EvictExpired(now) => PastExpiry(expiry, now)
    case Get(i, k, now) => i == id && k == key && PastExpiry(expiry, now)
    case _ => false
  }

  predicate RemovedSincePut(calls: seq<Call>, id: string, key: string, expiry: Option<Time>) {
    if calls == [] || PutsTo(Latest(calls), id, key) then false
    else Removes(Latest(calls), id, key, expiry) || RemovedSincePut(Before(calls), id, key, expiry)
  }

  /** When a put's value expires: its own time to live, else the cache's default, else never. */
  function PutExpiry(put: Call, config: CacheConfig): Option<Time>
    requires put.Put?
  {
    if put.ttl.Some? then Some(put.now + AsI64(put.ttl.value) * NANOS)
    else if config.defaultTtlSeconds.Some? then Some(put.now + AsI64(config.defaultTtlSeconds.value) * NANOS)
    else None
  }

  /** The configuration of the cache: that of the first create since it last did not exist. */
  function ConfigFromCalls(calls: seq<Call>, id: string): Option<CacheConfig> {
    if calls == [] then None
    else
      var before := ConfigFromCalls(Before(calls), id);
      match Latest(calls)
      case Create(config) => if config.id == id && before.None? then Some(config) else before
      case Remove(i) => if i == id then None else before
      case _ => before
  }

  // ---- Held entries ----

  /** The entry holds the latest put, nothing has removed it since, and its statistics count the reads since. */
  ghost predicate EntryFromCalls(calls: seq<Call>, id: string, key: string, config: CacheConfig, e: CacheEntry) {
    var put := LatestPut(calls, id, key);
    && put.Some?
    && e.key == key && e.value == put.value.value && e.layer == config.layer && e.createdAt == put.value.now
    && e.expiresAt == PutExpiry(put.value, config)
    && e.accessCount == ReadsSincePut(calls, id, key)
    && e.lastAccessed == LastReadSincePut(calls, id, key)
    && !RemovedSincePut(calls, id, key, e.expiresAt)
  }

  lemma NewCacheIsEmpty(s: Caches, call: Call, id: string)
    requires s.configs.Keys == s.entries.Keys && id !in s.configs && id in Next(s, call).configs
    ensures id in Next(s, call).entries && Next(s, call).entries[id] == map[]
  {
  }

  /** One call on one key of one cache. */
  lemma HeldStep(c: Cache, config: CacheConfig, call: Call, id: string, key: string)
    requires Targets(call, id) && key in CacheNext(c, config, call)
    ensures !PutsTo(call, id, key) ==> key in c && !Removes(call, id, key, c[key].expiresAt)
    ensures PutsTo(call, id, key) ==>
              CacheNext(c, config, call)[key] == CacheEntry(key, call.value, config.layer, call.now,
                                                            PutExpiry(call, config), 0, None)
    ensures Reads(call, id, key) ==>
              CacheNext(c, config, call)[key] == c[key].(accessCount := c[key].accessCount + 1,
                                                         lastAccessed := Some(call.now))
    ensures !PutsTo(call, id, key) && !Reads(call, id, key) ==> CacheNext(c, config, call)[key] == c[key]
  {
  }

  lemma OtherCallsPassBy(call: Call, id: string, key: string, expiry: Option<Time>)
    requires !Targets(call, id) && !(call.Remove? && call.id == id)
    ensures !PutsTo(call, id, key) && !Reads(call, id, key) && !Removes(call, id, key, expiry)
  {
  }

  lemma EntryGrows(calls: seq<Call>, id: string, key: string, config: CacheConfig, e: CacheEntry, e': CacheEntry)
    requires calls != [] && EntryFromCalls(Before(calls), id, key, config, e)
    requires !PutsTo(Latest(calls), id, key) && !Removes(Latest(calls), id, key, e.expiresAt)
    requires e' == if Reads(Latest(calls), id, key)
                   then e.(accessCount := e.accessCount + 1, lastAccessed := Some(Latest(calls).now)) else e
    ensures EntryFromCalls(calls, id, key, config, e')
  {
  }

  lemma EntryStarts(calls: seq<Call>, id: string, key: string, config: CacheConfig)
    requires calls != [] && PutsTo(Latest(calls), id, key)
    ensures var put := Latest(calls);
            EntryFromCalls(calls, id, key, config,
                           CacheEntry(key, put.value, config.layer, put.now, PutExpiry(put, config), 0, None))
  {
  }

  ghost predicate HoldsFromCalls(calls: seq<Call>, id: string, key: string, s: Caches) {
    id in s.configs && id in s.entries && key in s.entries[id] ==>
      EntryFromCalls(calls, id, key, s.configs[id], s.entries[id][key])
  }

  lemma TargetedStep(s: Caches, calls: seq<Call>, id: string, key: string)
    requires calls != [] && HoldsFromCalls(Before(calls), id, key, s)
    requires id in s.configs && id in s.entries && Targets(Latest(calls), id)
    requires key in CacheNext(s.entries[id], s.configs[id], Latest(calls))
    ensures EntryFromCalls(calls, id, key, s.configs[id], CacheNext(s.entries[id], s.configs[id], Latest(calls))[key])
  {
    var c, config := s.entries[id], s.configs[id];
    HeldStep(c, config, Latest(calls), id, key);
    if PutsTo(Latest(calls), id, key) {
      EntryStarts(calls, id, key, config);
    } else {
      EntryGrows(calls, id, key, config, c[key], CacheNext(c, config, Latest(calls))[key]);
    }
  }

  lemma StepFromCalls(s: Caches, calls: seq<Call>, id: string, key: string)
    requires s.configs.Keys == s.entries.Keys && calls != [] && HoldsFromCalls(Before(calls), id, key, s)
    requires id in Next(s, Latest(calls)).configs && id in Next(s, Latest(calls)).entries
    requires key in Next(s, Latest(calls)).entries[id]
    ensures HoldsFromCalls(calls, id, key, Next(s, Latest(calls)))
  {
    var call := Latest(calls);
    if id !in s.configs {
      NewCacheIsEmpty(s, call, id);
    } else {
      NextAt(s, call, id);
      if Targets(call, id) {
        TargetedStep(s, calls, id, key);
      } else {
        OtherCallsPassBy(call, id, key, s.entries[id][key].expiresAt);
        EntryGrows(calls, id, key, s.configs[id], s.entries[id][key], s.entries[id][key]);
      }
    }
  }

  /** In every run, a held entry is what the calls say: the latest put to its key, not removed since, with as many
      reads as there were since and the time of the last of them. */
  lemma {:induction false} HeldEntriesFromCalls(calls: seq<Call>, start: Time, id: string, key: string)
    requires LegalRun(calls, start)
    ensures HoldsFromCalls(calls, id, key, Run(calls, start).0)
  {
    if calls != [] {
      var s := Run(Before(calls), start).0;
      HeldEntriesFromCalls(Before(calls), start, id, key);
      RunsKeepInv(Before(calls), start);
      var s' := Next(s, Latest(calls));
      if id in s'.configs && id in s'.entries && key in s'.entries[id] {
        StepFromCalls(s, calls, id, key);
      }
    }
  }

  /** So a value answered is that of the latest put, whose time to live has not run out and which nothing has
      removed. */
  lemma HitsFromCalls(calls: seq<Call>, start: Time, id: string, key: string, now: Time)
    requires LegalRun(calls, start)
    ensures var s := Run(calls, start).0;
            Answer(s, id, key, now).Ok? && Answer(s, id, key, now).value.Some? ==>
              var put := LatestPut(calls, id, key);
              && put.Some? && Answer(s, id, key, now).value == Some(put.value.value)
              && id in s.configs && !PastExpiry(PutExpiry(put.value, s.configs[id]), now)
              && !RemovedSincePut(calls, id, key, PutExpiry(put.value, s.configs[id]))
  {
    HeldEntriesFromCalls(calls, start, id, key);
  }

  /** In every run the configurations are those the caches were created with. */
  lemma {:induction false} ConfigsFromCalls(calls: seq<Call>, start: Time, id: string)
    ensures var configs := Run(calls, start).0.configs;
            ConfigFromCalls(calls, id) == if id in configs then Some(configs[id]) else None
  {
    if calls != [] {
      ConfigsFromCalls(Before(calls), start, id);
    }
  }

  // ---- Evictions ----

  /** The policy may evict `victim` while `k` is held, in terms of the calls: under Lru `k` was not read longer ago,
      never counting as longest; under Lfu not less often; under Fifo it was not put earlier; under Ttl the victim
      has expired, or `k` has not and was not put earlier. */
  ghost predicate MayGoBefore(calls: seq<Call>, id: string, config: CacheConfig, now: Time, victim: string, k: string) {
    var v, p := LatestPut(calls, id, victim), LatestPut(calls, id, k);
    var read, read' := LastReadSincePut(calls, id, victim), LastReadSincePut(calls, id, k);
    v.Some? && p.Some? &&
    match config.eviction
    case Lru => read.None? || (read'.Some? && read.value <= read'.value)
    case Lfu => ReadsSincePut(calls, id, victim) <= ReadsSincePut(calls, id, k)
    case Fifo => v.value.now <= p.value.now
    case Ttl =>
      || PastExpiry(PutExpiry(v.value, config), now)
      || (!PastExpiry(PutExpiry(p.value, config), now) && v.value.now <= p.value.now)
  }

  lemma VictimOfEntries(calls: seq<Call>, id: string, config: CacheConfig, cache: Cache, now: Time, victim: string,
                        k: string)
    requires IsVictim(cache, config.eviction, now, victim) && k in cache
    requires EntryFromCalls(calls, id, victim, config, cache[victim]) && EntryFromCalls(calls, id, k, config, cache[k])
    ensures MayGoBefore(calls, id, config, now, victim, k)
  {
    assert Expired(cache[k], now) <==> PastExpiry(cache[k].expiresAt, now);
    assert Expired(cache[victim], now) <==> PastExpiry(cache[victim].expiresAt, now);
  }

  /** In every run, a put of a new key into a full cache evicts one held key, and one that its policy may evict
      while each other key `k` is held. */
  lemma EvictedVictim(calls: seq<Call>, start: Time, put: Call, k: string)
    requires LegalRun(calls, start) && MeetsFull(Run(calls, start).0, put) && Legal(Run(calls, start).0, put)
    requires k in Run(calls, start).0.entries[put.id]
    ensures var s := Run(calls, start).0;
            var held := s.entries[put.id].Keys;
            && put.victim.Some? && put.victim.value in held
            && MayGoBefore(calls, put.id, s.configs[put.id], put.now, put.victim.value, k)
            && Next(s, put).entries[put.id].Keys == held - {put.victim.value} + {put.key}
  {
    var s := Run(calls, start).0;
    HeldEntriesFromCalls(calls, start, put.id, put.victim.value);
    HeldEntriesFromCalls(calls, start, put.id, k);
    VictimOfEntries(calls, put.id, s.configs[put.id], s.entries[put.id], put.now, put.victim.value, k);
  }

  // ---- Counters ----

  /** The reads that were answered with a value, and those that were answered without one. */
  function Answered(calls: seq<Call>, start: Time, found: bool): nat {
    if calls == [] then 0
    else
      var call := Latest(calls);
      Answered(Before(calls), start, found)
      + if call.Get? && AnswerIs(Run(Before(calls), start).0, call, found) then 1 else 0
  }

  predicate AnswerIs(s: Caches, call: Call, found: bool)
    requires call.Get?
  {
    var a := Answer(s, call.id, call.key, call.now);
    a.Ok? && a.value.Some? == found
  }

  /** The puts of a new key into a full cache. */
  function PutsWhenFull(calls: seq<Call>, start: Time): nat {
    if calls == [] then 0
    else PutsWhenFull(Before(calls), start) + if MeetsFull(Run(Before(calls), start).0, Latest(calls)) then 1 else 0
  }

  predicate MeetsFull(s: Caches, call: Call) {
    && call.Put? && call.id in s.configs && call.id in s.entries
    && |s.entries[call.id]| >= s.configs[call.id].maxEntries && call.key !in s.entries[call.id]
  }

  lemma CountersStep(s: Caches, call: Call)
    ensures Next(s, call).hits == s.hits + if call.Get? && AnswerIs(s, call, true) then 1 else 0
    ensures Next(s, call).misses == s.misses + if call.Get? && AnswerIs(s, call, false) then 1 else 0
    ensures Next(s, call).evictions == s.evictions + if MeetsFull(s, call) then 1 else 0
  {
  }

  /** In every run the three counters are those numbers. */
  lemma {:induction false} CountersFromCalls(calls: seq<Call>, start: Time)
    ensures var s := Run(calls, start).0;
            && s.hits == Answered(calls, start, true) && s.misses == Answered(calls, start, false)
            && s.evictions == PutsWhenFull(calls, start)
  {
    if calls != [] {
      CountersFromCalls(Before(calls), start);
      CountersStep(Run(Before(calls), start).0, Latest(calls));
    }
  }
}
