/** `LRUCache`: a bounded, insertion-ordered key -> entry store with a time-to-live,
    least-recently-used eviction and hit/miss counters.

    The backing `Map` is an `OrderedMap.OMap` whose front is the least recently used
    key and whose back is the most recently used one. The clock is a parameter:
    every operation that reads `Date.now()` takes `now` (milliseconds) instead. */
module LruCache {
  import opened Results
  import OM = OrderedMap

  /** `CacheEntry`: the cached value and the instant after which it is stale. */
  datatype Entry<V> = Entry(value: V, expiresAt: int)

  type Entries<K, V> = OM.OMap<K, Entry<V>>

  /** The cache object: its map, its two counters and its two constructor parameters. */
  datatype Cache<K, V> = Cache(entries: Entries<K, V>, hits: nat, misses: nat, ttlMs: int, capacity: int)

  /** The one error the cache raises: `set` found nothing to evict
      ("Unexpected undefined key when evicting LRU"). */
  datatype CacheError = EvictedKeyUndefined

  /** Constructor defaults of the class. */
  const DefaultTtlMs: int := 40000
  const DefaultCapacity: int := 10

  /** An entry is stale strictly after its expiry instant. `get` writes the test as
      `now > expiresAt` and `sweepStale` as `expiresAt < now`: the same comparison,
      so an entry read exactly at `expiresAt` is still fresh for both. */
  predicate Expired<V>(e: Entry<V>, now: int)
  {
    now > e.expiresAt
  }

  /** The representation invariant: the map holds each key once. */
  predicate WellFormed<K(==), V(==)>(c: Cache<K, V>)
  {
    OM.DistinctKeys(c.entries)
  }

  /** The cache invariant: well-formed, and within capacity whenever the capacity is positive. */
  predicate Valid<K(==), V(==)>(c: Cache<K, V>)
  {
    WellFormed(c) && (c.capacity >= 1 ==> |c.entries| <= c.capacity)
  }

  /** `new LRUCache(ttlMs, capacity)`. */
  function New<K(==), V(==)>(ttlMs: int, capacity: int): (c: Cache<K, V>)
    ensures Valid(c)
    ensures Size(c) == 0
    ensures c.hits == 0 && c.misses == 0
    ensures c.ttlMs == ttlMs && c.capacity == capacity
  {
    Cache([], 0, 0, ttlMs, capacity)
  }

  /** The `size` getter: the number of distinct keys held. */
  function Size<K(==), V(==)>(c: Cache<K, V>): (n: nat)
    requires WellFormed(c)
    ensures n == |OM.KeySet(c.entries)|
  {
    OM.DistinctKeysCardinality(c.entries);
    |c.entries|
  }

  /** `get(id)`: a fresh entry is a hit and becomes the most recently used; an absent
      or stale key is a miss, and a stale entry is deleted on the way. */
  function Get<K(==), V(==)>(c: Cache<K, V>, k: K, now: int): (r: (Cache<K, V>, Option<V>))
    requires WellFormed(c)
    ensures WellFormed(r.0)
    ensures r.0.ttlMs == c.ttlMs && r.0.capacity == c.capacity
    ensures r.1.Some? ==> r.0.hits == c.hits + 1 && r.0.misses == c.misses
    ensures r.1.None? ==> r.0.hits == c.hits && r.0.misses == c.misses + 1
    // Absent key: a miss that leaves the map alone.
    ensures !OM.Has(c.entries, k) ==> r.1 == None && r.0.entries == c.entries
    // Stale key: a miss that removes exactly that key and keeps the rest in order.
    ensures OM.Has(c.entries, k) && Expired(OM.Get(c.entries, k).value, now) ==>
      && r.1 == None
      && !OM.Has(r.0.entries, k)
      && |r.0.entries| == |c.entries| - 1
      && OM.Subseq(r.0.entries, c.entries)
    // Fresh key: a hit that moves the untouched entry to the back and keeps the rest in order.
    ensures OM.Has(c.entries, k) && !Expired(OM.Get(c.entries, k).value, now) ==>
      && r.1 == Some(OM.Get(c.entries, k).value.value)
      && |r.0.entries| == |c.entries|
      && r.0.entries[|r.0.entries| - 1] == (k, OM.Get(c.entries, k).value)
      && !OM.Has(r.0.entries[..|r.0.entries| - 1], k)
      && OM.Subseq(r.0.entries[..|r.0.entries| - 1], c.entries)
  {
    match OM.Get(c.entries, k)
    case None =>
      (c.(misses := c.misses + 1), None)
    case Some(entry) =>
      var rest := OM.Delete(c.entries, k);
      OM.DeleteContents(c.entries, k);
      OM.DeleteLength(c.entries, k);
      OM.FilterDistinct(c.entries, (p: (K, Entry<V>)) => p.0 != k);
      if Expired(entry, now) then
        (c.(entries := rest, misses := c.misses + 1), None)
      else
        OM.PutAbsent(rest, k, entry);
        OM.AppendDistinct(rest, k, entry);
        var moved := OM.Put(rest, k, entry);
        assert moved[..|moved| - 1] == rest;
        (c.(entries := moved, hits := c.hits + 1), Some(entry.value))
  }

  /** The eviction step of `set`: delete the first key in iteration order, or throw
      when there is none. */
  function EvictOldest<K(==), V(==)>(m: Entries<K, V>): (r: Result<Entries<K, V>, CacheError>)
    requires OM.DistinctKeys(m)
    ensures r.Err? <==> |m| == 0
    ensures r.Ok? ==> r.value == m[1..]
  {
    match OM.FirstKey(m)
    case None => Err(EvictedKeyUndefined)
    case Some(oldest) =>
      OM.DeleteFirst(m);
      Ok(OM.Delete(m, oldest))
  }

  /** `set(id, value)`: first write wins. A present key, fresh or stale, is left exactly
      as it is; an absent key is appended as the most recently used entry, expiring
      `ttlMs` after `now`, once the least recently used entry has been evicted if the
      cache is full. When full means empty (capacity <= 0) there is nothing to evict
      and the call throws without changing the cache. */
  function Set<K(==), V(==)>(c: Cache<K, V>, k: K, v: V, now: int): (r: Result<Cache<K, V>, CacheError>)
    requires WellFormed(c)
    ensures OM.Has(c.entries, k) ==> r == Ok(c)
    ensures !OM.Has(c.entries, k) && |c.entries| < c.capacity ==>
      r == Ok(c.(entries := c.entries + [(k, Entry(v, now + c.ttlMs))]))
    ensures !OM.Has(c.entries, k) && 0 < |c.entries| && c.capacity <= |c.entries| ==>
      r == Ok(c.(entries := c.entries[1..] + [(k, Entry(v, now + c.ttlMs))]))
    ensures !OM.Has(c.entries, k) && |c.entries| == 0 && c.capacity <= 0 ==>
      r == Err(EvictedKeyUndefined)
    ensures r.Ok? ==> WellFormed(r.value)
  {
    if OM.Has(c.entries, k) then Ok(c)
    else
      var room := if |c.entries| >= c.capacity then EvictOldest(c.entries) else Ok(c.entries);
      match room
      case Err(e) => Err(e)
      case Ok(m) =>
        assert OM.DistinctKeys(m) && !OM.Has(m, k) by {
          if |c.entries| >= c.capacity {
            forall i, j | 0 <= i < j < |m| ensures m[i].0 != m[j].0 {
              assert m[i] == c.entries[i + 1] && m[j] == c.entries[j + 1];
            }
            forall i | 0 <= i < |m| ensures m[i].0 != k {
              assert m[i] == c.entries[i + 1];
            }
          }
        }
        OM.PutAbsent(m, k, Entry(v, now + c.ttlMs));
        OM.AppendDistinct(m, k, Entry(v, now + c.ttlMs));
        Ok(c.(entries := OM.Put(m, k, Entry(v, now + c.ttlMs))))
  }

  /** `deleteAll()`: an empty cache with both counters reset; the configuration stays. */
  function DeleteAll<K(==), V(==)>(c: Cache<K, V>): (r: Cache<K, V>)
    ensures Valid(r)
    ensures Size(r) == 0
    ensures r.hits == 0 && r.misses == 0
    ensures r.ttlMs == c.ttlMs && r.capacity == c.capacity
  {
    New(c.ttlMs, c.capacity)
  }

  /** `sweepStale()`: drop every stale entry, keep every fresh one in its original order,
      and leave the counters alone. */
  function SweepStale<K(==), V(==)>(c: Cache<K, V>, now: int): (r: Cache<K, V>)
    requires WellFormed(c)
    ensures WellFormed(r)
    ensures r.hits == c.hits && r.misses == c.misses
    ensures r.ttlMs == c.ttlMs && r.capacity == c.capacity
    ensures OM.Subseq(r.entries, c.entries)
    ensures forall i :: 0 <= i < |r.entries| ==> r.entries[i] in c.entries && !Expired(r.entries[i].1, now)
    ensures forall i :: 0 <= i < |c.entries| && !Expired(c.entries[i].1, now) ==> c.entries[i] in r.entries
  {
    var keep := (p: (K, Entry<V>)) => !Expired(p.1, now);
    OM.FilterDistinct(c.entries, keep);
    c.(entries := OM.Filter(c.entries, keep))
  }
}
