/** The resolution cache: its eviction and its expiry. Times are in nanoseconds. */
module ResolverCache {
  import opened Basics
  import opened Routing

  /** 5 minutes. */
  const RESOLVE_CACHE_TTL := 300_000_000_000

  const MAX_CACHE_ENTRIES := 10000

  datatype Entry = Entry(adnlHost: string, expiresAt: int)

  type Cache = map<string, Entry>

  /** The entries that are not past their time. */
  ghost function Live(cache: Cache, now: int): (live: Cache)
    ensures forall k :: k in live ==> k in cache && live[k] == cache[k]
  {
    map k | k in cache && now <= cache[k].expiresAt :: cache[k]
  }

  /** An entry stored at a time lives through the nanosecond five minutes later, and not the next. */
  lemma LivesFiveMinutes(cache: Cache, domain: string, host: string, at: int, now: int)
    requires domain in cache && cache[domain] == Entry(host, at + RESOLVE_CACHE_TTL)
    ensures domain in Live(cache, now) <==> now <= at + 300_000_000_000
  {
  }

  ghost predicate Oldest(cache: Cache, key: string) {
    key in cache && forall k :: k in cache ==> cache[key].expiresAt <= cache[k].expiresAt
  }

  /**
   An eviction at time `now`: nothing up to the limit; over it all expired entries go, and if that is not
   enough one entry with the earliest expiry goes too, unless its key is the empty string.
   */
  ghost predicate Evicts(before: Cache, after: Cache, now: int) {
    if |before| <= MAX_CACHE_ENTRIES then after == before
    else if |Live(before, now)| <= MAX_CACHE_ENTRIES then after == Live(before, now)
    else exists key :: Oldest(Live(before, now), key) &&
                       after == if key != "" then Live(before, now) - {key} else Live(before, now)
  }

  lemma SmallerMap(a: Cache, b: Cache)
    requires a.Keys <= b.Keys
    ensures |a| <= |b|
  {
    SmallerSet(a.Keys, b.Keys);
    assert |a.Keys| == |a| && |b.Keys| == |b|;
  }

  lemma {:induction false} SmallerSet(a: set<string>, b: set<string>)
    requires a <= b
    ensures |a| <= |b|
    decreases |a|
  {
    if x :| x in a {
      SmallerSet(a - {x}, b - {x});
    } else {
      assert a == {};
    }
  }

  /** Without an empty key, an eviction from at most one over the limit leaves room for one more. */
  lemma EvictionMakesRoom(before: Cache, after: Cache, now: int)
    requires Evicts(before, after, now) && "" !in before && |before| <= MAX_CACHE_ENTRIES + 1
    ensures |after| <= MAX_CACHE_ENTRIES && after.Keys <= before.Keys
    ensures forall k :: k in after ==> after[k] == before[k]
  {
    var live := Live(before, now);
    SmallerMap(live, before);
    if |before| > MAX_CACHE_ENTRIES && |live| > MAX_CACHE_ENTRIES {
      var key :| Oldest(live, key) && after == if key != "" then live - {key} else live;
      assert live.Keys == after.Keys + {key};
    }
  }

  /** The entries not past their expiry. */
  ghost function Unexpired(cache: Cache, now: int): set<string> {
    set k | k in cache && now <= cache[k].expiresAt
  }

  /**
   What an eviction does to a cache without an empty key. Up to 10000 entries, nothing. Above that no expired
   entry stays; of the others all stay if they are at most 10000, and otherwise all but one, which none of
   the others expires before.
   */
  lemma EvictionMeans(before: Cache, after: Cache, now: int)
    requires Evicts(before, after, now) && "" !in before
    ensures forall k :: k in after ==> k in before && after[k] == before[k]
    ensures |before| <= 10000 ==> after == before
    ensures |before| > 10000 && |Unexpired(before, now)| <= 10000 ==> after.Keys == Unexpired(before, now)
    ensures |before| > 10000 && |Unexpired(before, now)| > 10000 ==>
      exists gone :: && gone in Unexpired(before, now) && after.Keys == Unexpired(before, now) - {gone}
                     && forall k :: k in Unexpired(before, now) ==> before[gone].expiresAt <= before[k].expiresAt
  {
    var live := Live(before, now);
    assert live.Keys == Unexpired(before, now) && |live| == |live.Keys|;
    if |before| > 10000 && |live| > 10000 {
      var key :| Oldest(live, key) && after == if key != "" then live - {key} else live;
      assert after.Keys == Unexpired(before, now) - {key};
    }
  }

  /** The guard that could block an eviction: an empty key that is the oldest stays, and so does the rest. */
  lemma EmptyKeyBlocksEviction(cache: Cache, now: int)
    requires |cache| > MAX_CACHE_ENTRIES && Oldest(cache, "") && Live(cache, now) == cache
    ensures Evicts(cache, cache, now)
  {
  }

  /** The part of MultiResolver that the lock protects. Ranges over the map visit it in any order. */
  class CacheTable {
    var cacheMap: Cache

    constructor ()
      ensures cacheMap == map[]
    {
      cacheMap := map[];
    }

    /** One pass of cleanupLoop, and the first pass of evictIfNeeded. */
    method DropExpired(now: int, order: seq<string>)
      requires IterationOrder(order, cacheMap.Keys)
      modifies this
      ensures cacheMap == Live(old(cacheMap), now)
    {
      ghost var start := cacheMap;
      for i := 0 to |order|
        invariant forall k :: k in cacheMap <==> k in start && (k in order[..i] ==> now <= start[k].expiresAt)
        invariant forall k :: k in cacheMap ==> cacheMap[k] == start[k]
      {
        var k := order[i];
        assert order[..i + 1] == order[..i] + [k];
        if k in cacheMap && now > cacheMap[k].expiresAt {
          cacheMap := cacheMap - {k};
        }
      }
      assert order[..|order|] == order;
    }

    method EvictIfNeeded(now: int, order: seq<string>)
      requires IterationOrder(order, cacheMap.Keys)
      modifies this
      ensures Evicts(old(cacheMap), cacheMap, now)
    {
      if |cacheMap| <= MAX_CACHE_ENTRIES {
        return;
      }
      DropExpired(now, order);
      if |cacheMap| <= MAX_CACHE_ENTRIES {
        return;
      }
      var oldestKey := "";
      var oldestTime := 0;
      var first := true;
      for i := 0 to |order|
        invariant first <==> forall j :: 0 <= j < i ==> order[j] !in cacheMap
        invariant !first ==> oldestKey in cacheMap && oldestTime == cacheMap[oldestKey].expiresAt
        invariant !first ==>
          forall j :: 0 <= j < i && order[j] in cacheMap ==> oldestTime <= cacheMap[order[j]].expiresAt
      {
        var k := order[i];
        if k in cacheMap && (first || cacheMap[k].expiresAt < oldestTime) {
          oldestKey := k;
          oldestTime := cacheMap[k].expiresAt;
          first := false;
        }
      }
      ghost var live := cacheMap;
      NonemptyHasKey(live);
      assert forall k :: k in live ==> k in order;
      assert Oldest(live, oldestKey);
      if oldestKey != "" {
        cacheMap := cacheMap - {oldestKey};
      }
    }

    /** The locked section at the end of ResolveToADNL: evict, then insert with a second clock read. */
    method Store(domain: string, adnlHost: string, evictAt: int, storeAt: int, order: seq<string>)
      returns (ghost room: Cache)
      requires IterationOrder(order, cacheMap.Keys)
      modifies this
      ensures Evicts(old(cacheMap), room, evictAt)
      ensures cacheMap == room[domain := Entry(adnlHost, storeAt + RESOLVE_CACHE_TTL)]
    {
      EvictIfNeeded(evictAt, order);
      room := cacheMap;
      cacheMap := cacheMap[domain := Entry(adnlHost, storeAt + RESOLVE_CACHE_TTL)];
    }
  }

  lemma NonemptyHasKey(cache: Cache)
    requires |cache| > 0
    ensures exists k :: k in cache
  {
    assert (forall k :: k !in cache) ==> cache == map[];
  }
}
