/**
 * The in-memory TTL cache (`CacheService`).  The Python dictionary
 * `_cache` becomes the map `entries` together with `order`, the order in
 * which its keys were first inserted (what `list(self._cache.keys())`
 * reports).  The wall clock is the explicit parameter `now`, in seconds.
 */
module Cache {
  import opened Wrappers
  import opened Collections

  /** One cache slot: the value, the moment it stops being valid and the moment it was stored. */
  datatype Entry<V> = Entry(value: V, expiresAt: int, createdAt: int)

  /** The dictionary returned by `get_stats`. */
  datatype CacheStats = CacheStats(totalEntries: nat, validEntries: nat, keys: seq<string>)

  /** Five minutes, the default time-to-live of a new cache. */
  const DefaultTtl: int := 300

  /**
   * `ttl or default_ttl`: a missing ttl and a ttl of 0 (which Python
   * treats as false) both fall back to the default.
   */
  function EffectiveTtl(ttl: Option<int>, defaultTtl: int): (t: int)
    ensures ttl.Some? && ttl.value != 0 ==> t == ttl.value
    ensures ttl.None? || ttl.value == 0 ==> t == defaultTtl
  {
    match ttl
    case Some(v) => if v != 0 then v else defaultTtl
    case None => defaultTtl
  }

  /** An entry is still served at `now` up to and including its expiry time. */
  predicate Live<V>(e: Entry<V>, now: int) {
    now <= e.expiresAt
  }

  /** `key` names an entry that is still valid at `now`. */
  predicate LiveIn<V>(entries: map<string, Entry<V>>, key: string, now: int) {
    key in entries && Live(entries[key], now)
  }

  /** The keys whose entries are still valid at `now`. */
  function LiveKeys<V>(entries: map<string, Entry<V>>, now: int): set<string> {
    set k | k in entries && LiveIn(entries, k, now)
  }

  function Other(key: string): string -> bool {
    (k: string) => k != key
  }

  /** The key order after `del d[key]`: every other key keeps its place. */
  function Without(order: seq<string>, key: string): (r: seq<string>)
    ensures Elems(r) == Elems(order) - {key}
    ensures key !in order ==> r == order
  {
    FilterAllOrNone(order, Other(key));
    Filter(order, Other(key))
  }

  /** How many of `keys` name an entry that is valid at `now`, counted left to right. */
  function LiveCount<V>(keys: seq<string>, entries: map<string, Entry<V>>, now: int): (n: nat)
    ensures n <= |keys|
  {
    if keys == [] then 0
    else
      var k := keys[|keys| - 1];
      LiveCount(keys[..|keys| - 1], entries, now) + (if LiveIn(entries, k, now) then 1 else 0)
  }

  /** Counting along a duplicate-free key list counts each valid key exactly once. */
  lemma {:induction false} LiveCountIsCard<V>(keys: seq<string>, entries: map<string, Entry<V>>, now: int)
    requires NoDup(keys)
    ensures LiveCount(keys, entries, now) == |set k | k in keys && LiveIn(entries, k, now)|
    decreases |keys|
  {
    if keys == [] {
      assert (set k | k in keys && LiveIn(entries, k, now)) == {};
    } else {
      var init, x := keys[..|keys| - 1], keys[|keys| - 1];
      assert NoDup(init);
      assert x !in init by {
        forall j | 0 <= j < |init| ensures init[j] != x { assert keys[j] == init[j]; }
      }
      LiveCountIsCard(init, entries, now);
      var before := set k | k in init && LiveIn(entries, k, now);
      var after := set k | k in keys && LiveIn(entries, k, now);
      assert keys == init + [x];
      if LiveIn(entries, x, now) {
        assert after == before + {x};
      } else {
        assert after == before;
      }
    }
  }

  /** A cache whose entries expire a fixed number of seconds after they are stored. */
  class CacheService<V> {
    var entries: map<string, Entry<V>>
    var order: seq<string>
    const defaultTtl: int

    /** `order` lists every key of `entries` exactly once. */
    predicate Valid()
      reads this
    {
      NoDup(order) && Elems(order) == entries.Keys
    }

    constructor (defaultTtl: int)
      ensures Valid()
      ensures entries == map[] && order == [] && this.defaultTtl == defaultTtl
    {
      entries := map[];
      order := [];
      this.defaultTtl := defaultTtl;
    }

    /**
     * The stored value for `key` if it has not expired; an expired entry is
     * removed on the way and reported as a miss.
     */
    method Get(key: string, now: int) returns (r: Option<V>)
      requires Valid()
      modifies this
      ensures Valid()
      ensures key !in old(entries) ==> r == None && entries == old(entries) && order == old(order)
      ensures key in old(entries) && !Live(old(entries)[key], now) ==>
                r == None && entries == old(entries) - {key} && order == Without(old(order), key)
      ensures key in old(entries) && Live(old(entries)[key], now) ==>
                r == Some(old(entries)[key].value) && entries == old(entries) && order == old(order)
    {
      if key !in entries {
        return None;
      }
      var entry := entries[key];
      if now > entry.expiresAt {
        entries := entries - {key};
        FilterKeepsNoDup(order, Other(key));
        order := Without(order, key);
        return None;
      }
      return Some(entry.value);
    }

    /** Stores `value` under `key` until `now + ttl`, replacing any earlier entry for `key`. */
    method Set(key: string, value: V, ttl: Option<int>, now: int)
      requires Valid()
      modifies this
      ensures Valid()
      ensures entries == old(entries)[key := Entry(value, now + EffectiveTtl(ttl, defaultTtl), now)]
      ensures order == if key in old(entries) then old(order) else old(order) + [key]
    {
      var t := EffectiveTtl(ttl, defaultTtl);
      if key !in entries {
        assert key !in order;
        NoDupConcat(order, [key]);
        order := order + [key];
      }
      entries := entries[key := Entry(value, now + t, now)];
    }

    /** Removes `key`; the answer says whether it was there. */
    method Invalidate(key: string) returns (found: bool)
      requires Valid()
      modifies this
      ensures Valid()
      ensures found <==> key in old(entries)
      ensures entries == old(entries) - {key}
      ensures order == Without(old(order), key)
    {
      if key in entries {
        entries := entries - {key};
        FilterKeepsNoDup(order, Other(key));
        order := Without(order, key);
        return true;
      }
      assert key !in order;
      return false;
    }

    /** Empties the cache and reports how many entries it held. */
    method InvalidateAll() returns (count: nat)
      requires Valid()
      modifies this
      ensures Valid()
      ensures count == |old(entries)|
      ensures entries == map[] && order == []
    {
      count := |entries|;
      entries := map[];
      order := [];
    }

    /** The number of entries, the number still valid at `now`, and the keys in insertion order. */
    method GetStats(now: int) returns (stats: CacheStats)
      requires Valid()
      ensures stats.totalEntries == |entries|
      ensures stats.validEntries == |LiveKeys(entries, now)|
      ensures stats.validEntries <= stats.totalEntries
      ensures stats.keys == order
    {
      var valid := 0;
      for i := 0 to |order|
        invariant valid == LiveCount(order[..i], entries, now)
      {
        var k := order[i];
        assert order[..i + 1][..i] == order[..i];
        if k in entries && now <= entries[k].expiresAt {
          valid := valid + 1;
        }
      }
      assert order[..|order|] == order;
      LiveCountIsCard(order, entries, now);
      assert (set k | k in order && LiveIn(entries, k, now)) == LiveKeys(entries, now);
      NoDupCard(order);
      assert |entries| == |entries.Keys|;
      stats := CacheStats(|entries|, valid, order);
    }
  }
}
