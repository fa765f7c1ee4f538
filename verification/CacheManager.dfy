/** The multi-cache of wallet/src/cache_manager.rs: caches with a time to live and four eviction policies. */
module CacheManager {
  import opened Wrappers
  import opened WallClock

  datatype EvictionPolicy = Lru | Lfu | Fifo | Ttl

  datatype CacheLayer = Memory | Disk | Remote

  datatype CacheConfig = CacheConfig(
    id: string, name: string, layer: CacheLayer, maxEntries: nat, eviction: EvictionPolicy,
    defaultTtlSeconds: Option<nat>)

  datatype CacheEntry = CacheEntry(
    key: string, value: string, layer: CacheLayer, createdAt: Time, expiresAt: Option<Time>,
    accessCount: nat, lastAccessed: Option<Time>)

  type Cache = map<string, CacheEntry>

  datatype CacheError = CacheNotFound(id: string) | DuplicateCache(id: string) | KeyNotFound(key: string)

  predicate Expired(e: CacheEntry, now: Time) {
    e.expiresAt.Some? && e.expiresAt.value <= now
  }

  // ---- Victims ----

  /** Under the policy `a` goes no later than `b`. For Lru, never read counts as read longest ago. */
  predicate GoesFirst(policy: EvictionPolicy, a: CacheEntry, b: CacheEntry) {
    match policy
    case Lru => a.lastAccessed.None? || (b.lastAccessed.Some? && a.lastAccessed.value <= b.lastAccessed.value)
    case Lfu => a.accessCount <= b.accessCount
    case Fifo => a.createdAt <= b.createdAt
    case Ttl => a.createdAt <= b.createdAt
  }

  /** A key the policy may evict: an expired one first under Ttl, otherwise a minimal one. */
  ghost predicate IsVictim(cache: Cache, policy: EvictionPolicy, now: Time, victim: string) {
    && victim in cache
    && if policy.Ttl? && exists k :: k in cache && Expired(cache[k], now) then Expired(cache[victim], now)
       else forall k :: k in cache ==> GoesFirst(policy, cache[victim], cache[k])
  }

  /** `find`: some expired entry, if there is one. */
  method FindExpired(cache: Cache, now: Time) returns (r: Option<string>)
    ensures r.Some? ==> r.value in cache && Expired(cache[r.value], now)
    ensures r.None? ==> forall k :: k in cache ==> !Expired(cache[k], now)
  {
    var todo := cache.Keys;
    while todo != {}
      invariant todo <= cache.Keys
      invariant forall k :: k in cache && k !in todo ==> !Expired(cache[k], now)
      decreases todo
    {
      var k :| k in todo;
      if Expired(cache[k], now) {
        return Some(k);
      }
      todo := todo - {k};
    }
    return None;
  }

  /** `min_by`: some entry that goes first. */
  method FindFirst(cache: Cache, policy: EvictionPolicy) returns (victim: string)
    requires cache != map[]
    ensures victim in cache && forall k :: k in cache ==> GoesFirst(policy, cache[victim], cache[k])
  {
    victim :| victim in cache;
    var todo := cache.Keys;
    while todo != {}
      invariant todo <= cache.Keys && victim in cache
      invariant forall k :: k in cache && k !in todo ==> GoesFirst(policy, cache[victim], cache[k])
      decreases todo
    {
      var k :| k in todo;
      if !GoesFirst(policy, cache[victim], cache[k]) {
        victim := k;
      }
      todo := todo - {k};
    }
  }

  method DoEvict(cache: Cache, policy: EvictionPolicy, now: Time) returns (cache': Cache, victim: Option<string>)
    ensures cache == map[] ==> victim == None && cache' == cache
    ensures cache != map[] ==>
              victim.Some? && IsVictim(cache, policy, now, victim.value) && cache' == cache - {victim.value}
  {
    if cache == map[] {
      return cache, None;
    }
    var key;
    if policy == Ttl {
      var expired := FindExpired(cache, now);
      if expired.Some? {
        key := expired.value;
      } else {
        key := FindFirst(cache, Ttl);
      }
    } else {
      key := FindFirst(cache, policy);
    }
    cache', victim := cache - {key}, Some(key);
  }

  // ---- The manager's calls on values ----

  datatype Caches = Caches(
    configs: map<string, CacheConfig>, entries: map<string, Cache>, hits: nat, misses: nat, evictions: nat)

  /** The calls, with the clock reading of each. A put carries the victim that the iteration order of the
      hash map selected, if it evicted one. */
  datatype Call =
    | Create(config: CacheConfig)
    | Remove(id: string)
    | Put(id: string, key: string, value: string, ttl: Option<nat>, now: Time, victim: Option<string>)
    | Get(id: string, key: string, now: Time)
    | Invalidate(id: string, key: string)
    | InvalidateAll(id: string)
    | EvictExpired(now: Time)

  function NewEntry(config: CacheConfig, key: string, value: string, ttl: Option<nat>, now: Time): CacheEntry {
    var effective := if ttl.Some? then ttl else config.defaultTtlSeconds;
    var expiresAt := if effective.Some? then Some(now + AsI64(effective.value) * NANOS) else None;
    CacheEntry(key, value, config.layer, now, expiresAt, 0, None)
  }

  predicate AtCapacity(cache: Cache, config: CacheConfig, key: string) {
    |cache| >= config.maxEntries && key !in cache
  }

  function Without(cache: Cache, victim: Option<string>): Cache {
    if victim.Some? then cache - {victim.value} else cache
  }

  function Touched(e: CacheEntry, now: Time): CacheEntry {
    e.(accessCount := e.accessCount + 1, lastAccessed := Some(now))
  }

  function Retained(cache: Cache, now: Time): Cache {
    map k | k in cache && !Expired(cache[k], now) :: cache[k]
  }

  /** The caches after one call; a call that fails changes nothing. */
  function Next(s: Caches, call: Call): Caches {
    match call
    case Create(config) =>
      if config.id in s.configs then s
      else s.(configs := s.configs[config.id := config], entries := s.entries[config.id := map[]])
    case Remove(id) =>
      if id !in s.configs then s else s.(configs := s.configs - {id}, entries := s.entries - {id})
    case Put(id, key, value, ttl, now, victim) =>
      if id !in s.configs || id !in s.entries then s
      else
        var full := AtCapacity(s.entries[id], s.configs[id], key);
        var base := if full then Without(s.entries[id], victim) else s.entries[id];
        s.(entries := s.entries[id := base[key := NewEntry(s.configs[id], key, value, ttl, now)]],
           evictions := s.evictions + if full then 1 else 0)
    case Get(id, key, now) =>
      if id !in s.configs || id !in s.entries then s
      else if key !in s.entries[id] then s.(misses := s.misses + 1)
      else if Expired(s.entries[id][key], now) then
        s.(entries := s.entries[id := s.entries[id] - {key}], misses := s.misses + 1)
      else
        s.(entries := s.entries[id := s.entries[id][key := Touched(s.entries[id][key], now)]], hits := s.hits + 1)
    case Invalidate(id, key) =>
      if id !in s.entries then s else s.(entries := s.entries[id := s.entries[id] - {key}])
    case InvalidateAll(id) =>
      if id !in s.entries then s else s.(entries := s.entries[id := map[]])
    case EvictExpired(now) => s.(entries := map id | id in s.entries :: Retained(s.entries[id], now))
  }

  /** A put at capacity evicts a victim its policy allows, from any non-empty cache. */
  ghost predicate Legal(s: Caches, call: Call) {
    call.Put? && call.id in s.configs && call.id in s.entries
    && AtCapacity(s.entries[call.id], s.configs[call.id], call.key) ==>
      if s.entries[call.id] == map[] then call.victim.None?
      else call.victim.Some?
           && IsVictim(s.entries[call.id], s.configs[call.id].eviction, call.now, call.victim.value)
  }

  /** What `get` answers. */
  function Answer(s: Caches, id: string, key: string, now: Time): Result<Option<string>, CacheError> {
    if id !in s.configs || id !in s.entries then Err(CacheNotFound(id))
    else if key in s.entries[id] && !Expired(s.entries[id][key], now) then Ok(Some(s.entries[id][key].value))
    else Ok(None)
  }

  class CacheManager {
    var caches: map<string, CacheConfig>
    var entries: map<string, Cache>
    var hits: nat
    var misses: nat
    var evictions: nat

    ghost function State(): Caches
      reads this
    {
      Caches(caches, entries, hits, misses, evictions)
    }

    constructor ()
      ensures State() == Caches(map[], map[], 0, 0, 0)
    {
      caches, entries, hits, misses, evictions := map[], map[], 0, 0, 0;
    }

    method CreateCache(config: CacheConfig) returns (r: Result<(), CacheError>)
      modifies this
      ensures State() == Next(old(State()), Create(config))
      ensures r == if config.id in old(caches) then Err(DuplicateCache(config.id)) else Ok(())
    {
      if config.id in caches {
        return Err(DuplicateCache(config.id));
      }
      caches := caches[config.id := config];
      entries := entries[config.id := map[]];
      return Ok(());
    }

    method RemoveCache(id: string) returns (r: Result<CacheConfig, CacheError>)
      modifies this
      ensures State() == Next(old(State()), Remove(id))
      ensures r == if id in old(caches) then Ok(old(caches)[id]) else Err(CacheNotFound(id))
    {
      if id !in caches {
        return Err(CacheNotFound(id));
      }
      r := Ok(caches[id]);
      caches := caches - {id};
      entries := entries - {id};
    }

    method PutValue(id: string, key: string, value: string, ttl: Option<nat>, now: Time)
      returns (r: Result<(), CacheError>, ghost victim: Option<string>)
      modifies this
      ensures State() == Next(old(State()), Put(id, key, value, ttl, now, victim))
      ensures Legal(old(State()), Put(id, key, value, ttl, now, victim))
      ensures r == if id in old(caches) && id in old(entries) then Ok(()) else Err(CacheNotFound(id))
    {
      victim := None;
      if id !in caches || id !in entries {
        return Err(CacheNotFound(id)), None;
      }
      var config, cache := caches[id], entries[id];
      if |cache| >= config.maxEntries && key !in cache {
        var evicted;
        cache, evicted := DoEvict(cache, config.eviction, now);
        victim := evicted;
        evictions := evictions + 1;
      }
      entries := entries[id := cache[key := NewEntry(config, key, value, ttl, now)]];
      r := Ok(());
    }

    method GetValue(id: string, key: string, now: Time) returns (r: Result<Option<string>, CacheError>)
      modifies this
      ensures State() == Next(old(State()), Get(id, key, now))
      ensures r == Answer(old(State()), id, key, now)
    {
      if id !in caches || id !in entries {
        return Err(CacheNotFound(id));
      }
      if key !in entries[id] {
        misses := misses + 1;
        return Ok(None);
      }
      var entry := entries[id][key];
      if entry.expiresAt.Some? && now >= entry.expiresAt.value {
        entries := entries[id := entries[id] - {key}];
        misses := misses + 1;
        return Ok(None);
      }
      entry := entry.(accessCount := entry.accessCount + 1, lastAccessed := Some(now));
      entries := entries[id := entries[id][key := entry]];
      hits := hits + 1;
      return Ok(Some(entry.value));
    }

    method InvalidateKey(id: string, key: string) returns (r: Result<(), CacheError>)
      modifies this
      ensures State() == Next(old(State()), Invalidate(id, key))
      ensures r == if id !in old(entries) then Err(CacheNotFound(id))
                   else if key !in old(entries)[id] then Err(KeyNotFound(key)) else Ok(())
    {
      if id !in entries {
        return Err(CacheNotFound(id));
      }
      if key !in entries[id] {
        assert entries[id] - {key} == entries[id];
        assert entries == entries[id := entries[id]];
        return Err(KeyNotFound(key));
      }
      entries := entries[id := entries[id] - {key}];
      return Ok(());
    }

    method InvalidateWhole(id: string) returns (r: Result<(), CacheError>)
      modifies this
      ensures State() == Next(old(State()), InvalidateAll(id))
      ensures r == if id in old(entries) then Ok(()) else Err(CacheNotFound(id))
    {
      if id !in entries {
        return Err(CacheNotFound(id));
      }
      entries := entries[id := map[]];
      return Ok(());
    }

    /** Drops what has expired from every cache. */
    method DropExpired(now: Time)
      modifies this
      ensures State() == Next(old(State()), EvictExpired(now))
    {
      var todo := entries.Keys;
      while todo != {}
        invariant todo <= entries.Keys == old(entries).Keys
        invariant forall id :: id in todo ==> entries[id] == old(entries)[id]
        invariant forall id :: id in entries && id !in todo ==> entries[id] == Retained(old(entries)[id], now)
        invariant caches == old(caches) && hits == old(hits) && misses == old(misses) && evictions == old(evictions)
        decreases todo
      {
        var id :| id in todo;
        entries := entries[id := Retained(entries[id], now)];
        todo := todo - {id};
      }
      assert entries == map id | id in old(entries) :: Retained(old(entries)[id], now);
    }
  }
}
