/** Properties of the `LRUCache` model that relate several calls or restate an
    operation's effect in terms of the cache's contents. */
module LruCacheProperties {
  import opened Results
  import OM = OrderedMap
  import opened LruCache

  // ---------------------------------------------------------------------------
  // get
  // ---------------------------------------------------------------------------

  /** A hit keeps the same pairs, so the same keys with the same entries: the expiry
      instant is not refreshed. Only the hit key moves: removing it from the map before
      and after the call gives the same sequence, and it is now the last key. */
  lemma GetHitKeepsEntries<K, V>(c: Cache<K, V>, k: K, now: int)
    requires WellFormed(c)
    requires OM.Has(c.entries, k) && !Expired(OM.Get(c.entries, k).value, now)
    ensures var c' := Get(c, k, now).0;
      && (forall p :: p in c'.entries <==> p in c.entries)
      && (forall j :: OM.Get(c'.entries, j) == OM.Get(c.entries, j))
      && OM.Delete(c'.entries, k) == OM.Delete(c.entries, k)
      && c'.entries[|c'.entries| - 1].0 == k
  {
    var e := OM.Get(c.entries, k).value;
    var c' := Get(c, k, now).0;
    var rest := OM.Delete(c.entries, k);
    OM.DeleteContents(c.entries, k);
    OM.PutAbsent(rest, k, e);
    assert c'.entries == rest + [(k, e)];
    forall p ensures p in c'.entries <==> p in c.entries {
      if p.0 == k && p in c.entries {
        OM.GetStored(c.entries, p);
      }
    }
    forall j ensures OM.Get(c'.entries, j) == OM.Get(c.entries, j) {
      var a := OM.Get(c'.entries, j);
      var b := OM.Get(c.entries, j);
      if a.Some? {
        OM.GetStored(c.entries, (j, a.value));
      } else if b.Some? {
        assert (j, b.value) in c'.entries;
        OM.PairKeyHas(c'.entries, (j, b.value));
      }
    }
    var keep := (p: (K, Entry<V>)) => p.0 != k;
    OM.FilterConcat(rest, [(k, e)], keep);
    assert OM.Filter([(k, e)], keep) == [];
    OM.FilterAllKept(rest, keep);
  }

  /** A stale hit deletes exactly the stale key: every other pair stays. */
  lemma GetStaleDeletesOnlyKey<K, V>(c: Cache<K, V>, k: K, now: int)
    requires WellFormed(c)
    requires OM.Has(c.entries, k) && Expired(OM.Get(c.entries, k).value, now)
    ensures var r := Get(c, k, now);
      && r.1 == None
      && (forall p :: p in r.0.entries <==> p in c.entries && p.0 != k)
  {
    OM.DeleteContents(c.entries, k);
  }

  /** `get` keeps the cache invariant. */
  lemma GetKeepsValid<K, V>(c: Cache<K, V>, k: K, now: int)
    requires Valid(c)
    ensures Valid(Get(c, k, now).0)
  {
  }

  // ---------------------------------------------------------------------------
  // set
  // ---------------------------------------------------------------------------

  /** First write wins: a second `set` of a key, even one whose entry is stale, changes
      nothing, so a later fresh `get` still returns the first value. */
  lemma SetPresentIsNoOp<K, V>(c: Cache<K, V>, k: K, v: V, now: int)
    requires WellFormed(c)
    requires OM.Has(c.entries, k)
    ensures Set(c, k, v, now) == Ok(c)
  {
  }

  /** `set` of a new key into a full cache evicts exactly the least recently used key:
      that key is gone, the new key is the most recently used, and every other pair keeps
      its place relative to the others. */
  lemma SetEvictsOldest<K, V>(c: Cache<K, V>, k: K, v: V, now: int)
    requires WellFormed(c)
    requires !OM.Has(c.entries, k)
    requires 0 < |c.entries| && c.capacity <= |c.entries|
    ensures Set(c, k, v, now).Ok?
    ensures var c' := Set(c, k, v, now).value;
      && !OM.Has(c'.entries, c.entries[0].0)
      && |c'.entries| == |c.entries|
      && c'.entries[|c'.entries| - 1] == (k, Entry(v, now + c.ttlMs))
      && (forall p :: p in c'.entries <==> p == (k, Entry(v, now + c.ttlMs)) || (p in c.entries && p.0 != c.entries[0].0))
  {
    var c' := Set(c, k, v, now).value;
    var old0 := c.entries[0].0;
    forall i | 0 <= i < |c'.entries| ensures c'.entries[i].0 != old0 {
      if i < |c'.entries| - 1 {
        assert c'.entries[i] == c.entries[i + 1];
      } else {
        assert c.entries[0] in c.entries;
      }
    }
    forall p ensures p in c'.entries <==> p == (k, Entry(v, now + c.ttlMs)) || (p in c.entries && p.0 != old0) {
      if p in c.entries && p.0 != old0 {
        var i :| 0 <= i < |c.entries| && c.entries[i] == p;
        assert c'.entries[i - 1] == p;
      }
      if p in c'.entries && p != (k, Entry(v, now + c.ttlMs)) {
        var i :| 0 <= i < |c'.entries| && c'.entries[i] == p;
        assert c.entries[i + 1] == p;
      }
    }
  }

  /** `set` keeps the cache invariant; with a positive capacity the size never exceeds it. */
  lemma SetKeepsValid<K, V>(c: Cache<K, V>, k: K, v: V, now: int)
    requires Valid(c)
    ensures Set(c, k, v, now).Ok? ==> Valid(Set(c, k, v, now).value)
  {
  }

  /** With a positive capacity `set` never throws. */
  lemma SetSucceedsWithPositiveCapacity<K, V>(c: Cache<K, V>, k: K, v: V, now: int)
    requires WellFormed(c)
    requires c.capacity >= 1
    ensures Set(c, k, v, now).Ok?
  {
  }

  /** With capacity <= 0, `set` of a new key throws exactly when the map is empty, and the
      cache is then left as it was (the result carries no new state). */
  lemma SetThrowsOnlyWhenNothingToEvict<K, V>(c: Cache<K, V>, k: K, v: V, now: int)
    requires WellFormed(c)
    ensures Set(c, k, v, now).Err? <==> !OM.Has(c.entries, k) && |c.entries| == 0 && c.capacity <= 0
  {
  }

  // ---------------------------------------------------------------------------
  // sweepStale and deleteAll
  // ---------------------------------------------------------------------------

  /** `sweepStale(now)` keeps exactly the fresh pairs. */
  lemma SweepStaleExact<K, V>(c: Cache<K, V>, now: int)
    requires WellFormed(c)
    ensures forall p :: p in SweepStale(c, now).entries <==> p in c.entries && !Expired(p.1, now)
  {
    var r := SweepStale(c, now);
    forall p | p in c.entries && !Expired(p.1, now) ensures p in r.entries {
      var i :| 0 <= i < |c.entries| && c.entries[i] == p;
    }
  }

  /** A second sweep at the same instant finds nothing left to remove. */
  lemma SweepStaleIdempotent<K, V>(c: Cache<K, V>, now: int)
    requires WellFormed(c)
    ensures SweepStale(SweepStale(c, now), now) == SweepStale(c, now)
  {
    var once := SweepStale(c, now);
    var keep := (p: (K, Entry<V>)) => !Expired(p.1, now);
    forall p | p in once.entries ensures keep(p) {
      var i :| 0 <= i < |once.entries| && once.entries[i] == p;
    }
    OM.FilterAllKept(once.entries, keep);
  }

  /** `sweepStale` keeps the cache invariant. */
  lemma SweepStaleKeepsValid<K, V>(c: Cache<K, V>, now: int)
    requires Valid(c)
    ensures Valid(SweepStale(c, now))
  {
  }

  /** After `deleteAll` every `get` is a miss and counts as the only miss so far. */
  lemma DeleteAllThenGetMisses<K, V>(c: Cache<K, V>, k: K, now: int)
    ensures var r := Get(DeleteAll(c), k, now);
      r.1 == None && r.0.hits == 0 && r.0.misses == 1 && r.0.entries == []
  {
  }

  // ---------------------------------------------------------------------------
  // Any sequence of operations
  // ---------------------------------------------------------------------------

  /** One call on the cache object, as the routes of the service issue them. */
  datatype Op<K, V> =
    | GetOp(key: K, now: int)
    | SetOp(key: K, value: V, now: int)
    | SweepOp(now: int)
    | DeleteAllOp

  /** The cache after one call; a `set` that throws leaves the cache as it was. */
  function Step<K(==), V(==)>(c: Cache<K, V>, op: Op<K, V>): (r: Cache<K, V>)
    requires WellFormed(c)
    ensures WellFormed(r)
    ensures Valid(c) ==> Valid(r)
  {
    match op
    case GetOp(k, now) => Get(c, k, now).0
    case SetOp(k, v, now) =>
      (match Set(c, k, v, now)
       case Ok(c') => c'
       case Err(_) => c)
    case SweepOp(now) => SweepStale(c, now)
    case DeleteAllOp => DeleteAll(c)
  }

  /** The cache after a sequence of calls. */
  function Run<K(==), V(==)>(c: Cache<K, V>, ops: seq<Op<K, V>>): (r: Cache<K, V>)
    requires WellFormed(c)
    ensures WellFormed(r)
    decreases |ops|
  {
    if |ops| == 0 then c else Run(Step(c, ops[0]), ops[1..])
  }

  /** From any cache satisfying the invariant, every sequence of calls keeps it: with
      capacity >= 1, no sequence of calls ever makes the size exceed the capacity. */
  lemma {:induction false} RunKeepsValid<K, V>(c: Cache<K, V>, ops: seq<Op<K, V>>)
    requires Valid(c)
    ensures Valid(Run(c, ops))
    ensures c.capacity >= 1 ==> Size(Run(c, ops)) <= c.capacity
    decreases |ops|
  {
    if |ops| > 0 {
      RunKeepsValid(Step(c, ops[0]), ops[1..]);
    }
    OM.DistinctKeysCardinality(Run(c, ops).entries);
  }

  // ---------------------------------------------------------------------------
  // Worked scenarios
  // ---------------------------------------------------------------------------

  /** Capacity 2: set(1,a), set(2,b), get(1), set(3,c) evicts key 2, which reading 1 made
      the least recently used; then get(2) misses while get(1) and get(3) hit. */
  lemma LruScenario<V>(a: V, b: V, cv: V, t: int)
    ensures
      var c0 := New<int, V>(DefaultTtlMs, 2);
      var c1 := Set(c0, 1, a, t).value;
      var c2 := Set(c1, 2, b, t).value;
      var g := Get(c2, 1, t);
      var c3 := Set(g.0, 3, cv, t).value;
      var m2 := Get(c3, 2, t);
      var h1 := Get(m2.0, 1, t);
      var h3 := Get(h1.0, 3, t);
      && g.1 == Some(a)
      && m2.1 == None
      && h1.1 == Some(a)
      && h3.1 == Some(cv)
      && h3.0.hits == 3 && h3.0.misses == 1
  {
    var e1 := Entry(a, t + DefaultTtlMs);
    var e2 := Entry(b, t + DefaultTtlMs);
    var e3 := Entry(cv, t + DefaultTtlMs);
    var c0 := New<int, V>(DefaultTtlMs, 2);
    var c1 := Set(c0, 1, a, t).value;
    assert c1.entries == [(1, e1)];
    var c2 := Set(c1, 2, b, t).value;
    assert c2.entries == [(1, e1), (2, e2)] by {
      assert c1.entries[0].0 != 2;
    }
    var g := Get(c2, 1, t);
    GetHitOfTwo(c2, 1, e1, 2, e2, t);
    var c3 := Set(g.0, 3, cv, t).value;
    assert c3.entries == [(1, e1), (3, e3)] by {
      assert g.0.entries[0].0 != 3 && g.0.entries[1].0 != 3;
    }
    var m2 := Get(c3, 2, t);
    assert m2.0.entries == c3.entries by {
      assert c3.entries[0].0 != 2 && c3.entries[1].0 != 2;
    }
    var h1 := Get(m2.0, 1, t);
    GetHitOfTwo(m2.0, 1, e1, 3, e3, t);
    GetHitOfTwo(h1.0, 3, e3, 1, e1, t);
  }

  /** A fresh hit on the older of two keys swaps them. */
  lemma GetHitOfTwo<K, V>(c: Cache<K, V>, x: K, ex: Entry<V>, y: K, ey: Entry<V>, now: int)
    requires c.entries == [(x, ex), (y, ey)]
    requires x != y && !Expired(ex, now)
    ensures Get(c, x, now) == (c.(entries := [(y, ey), (x, ex)], hits := c.hits + 1), Some(ex.value))
  {
    assert OM.Get(c.entries, x) == Some(ex);
    var m := Get(c, x, now).0.entries;
    assert m[1] == (x, ex);
    var front := m[..1];
    assert OM.Subseq(front, c.entries) && !OM.Has(front, x);
    assert front[0].0 != x;
    assert OM.Subseq(front, c.entries[1..]);
    assert c.entries[1..] == [(y, ey)];
    assert front[0] == (y, ey);
    assert m == front + [(x, ex)];
    var r := Get(c, x, now);
    assert r.1 == Some(ex.value);
    assert r.0.hits == c.hits + 1 && r.0.misses == c.misses;
    assert r.0.entries == [(y, ey), (x, ex)];
  }

  /** Time to live 40000 ms: an entry set at t is still a hit at t + 40000, is a miss that
      deletes it at t + 40001, and a later set of the same key then takes effect. */
  lemma TtlScenario<V>(a: V, b: V, t: int)
    ensures
      var c1 := Set(New<int, V>(DefaultTtlMs, DefaultCapacity), 1, a, t).value;
      var atExpiry := Get(c1, 1, t + 40000);
      var after := Get(c1, 1, t + 40001);
      var c2 := Set(after.0, 1, b, t + 40001).value;
      && atExpiry.1 == Some(a)
      && after.1 == None
      && after.0.entries == []
      && Get(c2, 1, t + 40001).1 == Some(b)
  {
    var c0 := New<int, V>(DefaultTtlMs, DefaultCapacity);
    assert !OM.Has(c0.entries, 1);
    var c1 := Set(c0, 1, a, t).value;
    assert c1.entries == [(1, Entry(a, t + 40000))];
    assert OM.Get(c1.entries, 1) == Some(Entry(a, t + 40000));
    var after := Get(c1, 1, t + 40001);
    assert !OM.Has(after.0.entries, 1);
    var c2 := Set(after.0, 1, b, t + 40001).value;
    assert c2.entries == [(1, Entry(b, t + 40001 + 40000))];
  }

  /** set(1,a) then set(1,b): the first write wins and get(1) returns a. */
  lemma NoOverwriteScenario<V>(a: V, b: V, t: int, t': int)
    requires t <= t' <= t + DefaultTtlMs
    ensures
      var c1 := Set(New<int, V>(DefaultTtlMs, DefaultCapacity), 1, a, t).value;
      var c2 := Set(c1, 1, b, t').value;
      Get(c2, 1, t').1 == Some(a)
  {
    var c0 := New<int, V>(DefaultTtlMs, DefaultCapacity);
    assert !OM.Has(c0.entries, 1);
    var c1 := Set(c0, 1, a, t).value;
    assert c1.entries == [(1, Entry(a, t + DefaultTtlMs))];
    assert c1.entries[0].0 == 1;
  }
}
