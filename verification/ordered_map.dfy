/** The insertion-ordered JavaScript `Map` as a sequence of key/value pairs.
    The first pair is the oldest insertion, the last the newest; a well-formed map
    holds each key at most once (`DistinctKeys`). */
module OrderedMap {
  import opened Results

  type OMap<K, V> = seq<(K, V)>

  /** The keys in iteration order (`Map.prototype.keys`). */
  function Keys<K(==), V(==)>(m: OMap<K, V>): seq<K>
  {
    seq(|m|, i requires 0 <= i < |m| => m[i].0)
  }

  /** The set of keys stored in `m`. */
  function KeySet<K(==), V(==)>(m: OMap<K, V>): set<K>
  {
    set i | 0 <= i < |m| :: m[i].0
  }

  /** `Map.prototype.has`. */
  predicate Has<K(==), V(==)>(m: OMap<K, V>, k: K)
  {
    exists i :: 0 <= i < |m| && m[i].0 == k
  }

  /** Every key occurs once: the invariant a JavaScript `Map` keeps by construction. */
  predicate DistinctKeys<K(==), V(==)>(m: OMap<K, V>)
  {
    forall i, j :: 0 <= i < j < |m| ==> m[i].0 != m[j].0
  }

  /** `r` is `m` with zero or more elements left out and the rest in their original order. */
  predicate Subseq<T(==)>(r: seq<T>, m: seq<T>)
    decreases |m|
  {
    if |r| == 0 then true
    else if |m| == 0 then false
    else if r[0] == m[0] then Subseq(r[1..], m[1..])
    else Subseq(r, m[1..])
  }

  /** `Map.prototype.get`: the value stored under `k`, if any. */
  function Get<K(==), V(==)>(m: OMap<K, V>, k: K): (r: Option<V>)
    ensures r.Some? <==> Has(m, k)
    ensures r.Some? ==> (k, r.value) in m
  {
    if |m| == 0 then None
    else if m[0].0 == k then Some(m[0].1)
    else
      assert forall i :: 0 <= i < |m[1..]| ==> m[1..][i] == m[i + 1];
      Get(m[1..], k)
  }

  /** The first key in iteration order, `m.keys().next().value`; `None` when the map is empty. */
  function FirstKey<K(==), V(==)>(m: OMap<K, V>): (r: Option<K>)
    ensures r.None? <==> |m| == 0
    ensures r.Some? ==> Has(m, r.value) && Keys(m)[0] == r.value
  {
    if |m| == 0 then None else Some(m[0].0)
  }

  /** The pairs of `m` that satisfy `keep`, in their original order. */
  function Filter<K(==), V(==)>(m: OMap<K, V>, keep: ((K, V)) -> bool): (r: OMap<K, V>)
    ensures forall i :: 0 <= i < |r| ==> r[i] in m && keep(r[i])
    ensures forall i :: 0 <= i < |m| && keep(m[i]) ==> m[i] in r
    ensures Subseq(r, m)
    ensures |r| <= |m|
  {
    if |m| == 0 then []
    else if keep(m[0]) then [m[0]] + Filter(m[1..], keep)
    else Filter(m[1..], keep)
  }

  /** `Map.prototype.delete`: drop the pair stored under `k`; the others keep their order. */
  function Delete<K(==), V(==)>(m: OMap<K, V>, k: K): OMap<K, V>
  {
    Filter(m, (p: (K, V)) => p.0 != k)
  }

  /** `Map.prototype.set`: a present key keeps its position and takes the new value,
      an absent key is appended as the newest pair. */
  function Put<K(==), V(==)>(m: OMap<K, V>, k: K, v: V): OMap<K, V>
  {
    if |m| == 0 then [(k, v)]
    else if m[0].0 == k then [(k, v)] + m[1..]
    else [m[0]] + Put(m[1..], k, v)
  }

  // ---------------------------------------------------------------------------
  // Facts about the operations above.
  // ---------------------------------------------------------------------------

  /** A well-formed map has as many keys as pairs: `Map.prototype.size` counts keys. */
  lemma {:induction false} DistinctKeysCardinality<K, V>(m: OMap<K, V>)
    requires DistinctKeys(m)
    ensures |KeySet(m)| == |m|
  {
    if |m| > 0 {
      var tail := m[1..];
      DistinctKeysCardinality(tail);
      assert KeySet(m) == {m[0].0} + KeySet(tail) by {
        forall x | x in KeySet(m) ensures x in {m[0].0} + KeySet(tail) {
          var i :| 0 <= i < |m| && m[i].0 == x;
          if i > 0 { assert tail[i - 1].0 == x; }
        }
        forall x | x in KeySet(tail) ensures x in KeySet(m) {
          var i :| 0 <= i < |tail| && tail[i].0 == x;
          assert m[i + 1].0 == x;
        }
      }
      assert m[0].0 !in KeySet(tail) by {
        forall i | 0 <= i < |tail| ensures tail[i].0 != m[0].0 {
          assert tail[i] == m[i + 1];
        }
      }
    }
  }

  /** In a well-formed map the lookup of a stored key finds that key's pair. */
  lemma GetStored<K, V>(m: OMap<K, V>, p: (K, V))
    requires DistinctKeys(m)
    requires p in m
    ensures Get(m, p.0) == Some(p.1)
  {
    var r := Get(m, p.0);
    var i :| 0 <= i < |m| && m[i] == p;
    var j :| 0 <= j < |m| && m[j] == (p.0, r.value);
    assert i == j;
  }

  /** Filtering keeps a well-formed map well-formed. */
  lemma {:induction false} FilterDistinct<K, V>(m: OMap<K, V>, keep: ((K, V)) -> bool)
    requires DistinctKeys(m)
    ensures DistinctKeys(Filter(m, keep))
  {
    if |m| > 0 {
      var tail := m[1..];
      assert DistinctKeys(tail) by {
        forall i, j | 0 <= i < j < |tail| ensures tail[i].0 != tail[j].0 {
          assert tail[i] == m[i + 1] && tail[j] == m[j + 1];
        }
      }
      FilterDistinct(tail, keep);
      if keep(m[0]) {
        var rest := Filter(tail, keep);
        var r := [m[0]] + rest;
        forall i, j | 0 <= i < j < |r| ensures r[i].0 != r[j].0 {
          if i == 0 {
            assert r[j] == rest[j - 1];
            assert r[j] in tail;
            var t :| 0 <= t < |tail| && tail[t] == r[j];
            assert m[t + 1] == r[j];
          } else {
            assert r[i] == rest[i - 1] && r[j] == rest[j - 1];
          }
        }
      }
    }
  }

  /** Filtering with a test every pair passes changes nothing. */
  lemma {:induction false} FilterAllKept<K, V>(m: OMap<K, V>, keep: ((K, V)) -> bool)
    requires forall p :: p in m ==> keep(p)
    ensures Filter(m, keep) == m
  {
    if |m| > 0 {
      assert forall p :: p in m[1..] ==> p in m;
      FilterAllKept(m[1..], keep);
      assert [m[0]] + m[1..] == m;
    }
  }

  /** Filtering distributes over concatenation. */
  lemma {:induction false} FilterConcat<K, V>(a: OMap<K, V>, b: OMap<K, V>, keep: ((K, V)) -> bool)
    ensures Filter(a + b, keep) == Filter(a, keep) + Filter(b, keep)
  {
    if |a| == 0 {
      assert a + b == b;
    } else {
      assert (a + b)[0] == a[0];
      assert (a + b)[1..] == a[1..] + b;
      FilterConcat(a[1..], b, keep);
    }
  }

  /** Deleting a stored key of a well-formed map removes exactly one pair. */
  lemma {:induction false} DeleteLength<K, V>(m: OMap<K, V>, k: K)
    requires DistinctKeys(m)
    requires Has(m, k)
    ensures |Delete(m, k)| == |m| - 1
  {
    var tail := m[1..];
    if m[0].0 == k {
      forall p | p in tail ensures p.0 != k {
        var i :| 0 <= i < |tail| && tail[i] == p;
        assert m[i + 1] == p;
      }
      FilterAllKept(tail, (p: (K, V)) => p.0 != k);
    } else {
      var i :| 0 <= i < |m| && m[i].0 == k;
      assert tail[i - 1].0 == k;
      assert DistinctKeys(tail) by {
        forall a, b | 0 <= a < b < |tail| ensures tail[a].0 != tail[b].0 {
          assert tail[a] == m[a + 1] && tail[b] == m[b + 1];
        }
      }
      DeleteLength(tail, k);
    }
  }

  /** Deleting the first key of a well-formed map leaves exactly its tail. */
  lemma DeleteFirst<K, V>(m: OMap<K, V>)
    requires DistinctKeys(m)
    requires |m| > 0
    ensures Delete(m, m[0].0) == m[1..]
  {
    var keep := (p: (K, V)) => p.0 != m[0].0;
    forall p | p in m[1..] ensures keep(p) {
      var i :| 0 <= i < |m[1..]| && m[1..][i] == p;
      assert m[i + 1] == p;
    }
    FilterAllKept(m[1..], keep);
  }

  /** `set` of an absent key appends it as the newest pair. */
  lemma {:induction false} PutAbsent<K, V>(m: OMap<K, V>, k: K, v: V)
    requires !Has(m, k)
    ensures Put(m, k, v) == m + [(k, v)]
  {
    if |m| > 0 {
      assert !Has(m[1..], k) by {
        forall i | 0 <= i < |m[1..]| ensures m[1..][i].0 != k {
          assert m[1..][i] == m[i + 1];
        }
      }
      PutAbsent(m[1..], k, v);
      assert [m[0]] + (m[1..] + [(k, v)]) == m + [(k, v)];
    }
  }

  /** `set` of a present key keeps every key in its position and stores the new value. */
  lemma {:induction false} PutPresent<K, V>(m: OMap<K, V>, k: K, v: V)
    requires Has(m, k)
    ensures Keys(Put(m, k, v)) == Keys(m)
    ensures Get(Put(m, k, v), k) == Some(v)
  {
    var tail := m[1..];
    if m[0].0 != k {
      var i :| 0 <= i < |m| && m[i].0 == k;
      assert tail[i - 1].0 == k;
      PutPresent(tail, k, v);
      var r := Put(m, k, v);
      assert r == [m[0]] + Put(tail, k, v);
      assert r[1..] == Put(tail, k, v);
      assert Keys(r) == [m[0].0] + Keys(Put(tail, k, v));
      assert Keys(m) == [m[0].0] + Keys(tail);
    }
  }

  /** After `delete(k)` the key is gone and every other pair is still there. */
  lemma DeleteContents<K, V>(m: OMap<K, V>, k: K)
    ensures !Has(Delete(m, k), k)
    ensures forall p :: p in Delete(m, k) <==> p in m && p.0 != k
    ensures Subseq(Delete(m, k), m)
  {
    var r := Delete(m, k);
    forall i | 0 <= i < |r| ensures r[i].0 != k {
      assert r[i] in r;
    }
  }

  /** Appending a key that is not present keeps a map well-formed. */
  lemma AppendDistinct<K, V>(m: OMap<K, V>, k: K, v: V)
    requires DistinctKeys(m)
    requires !Has(m, k)
    ensures DistinctKeys(m + [(k, v)])
  {
    var r := m + [(k, v)];
    forall i, j | 0 <= i < j < |r| ensures r[i].0 != r[j].0 {
      if j == |m| {
        assert r[i] == m[i];
      } else {
        assert r[i] == m[i] && r[j] == m[j];
      }
    }
  }

  /** Keys of the pairs of `m` are keys of `m`. */
  lemma PairKeyHas<K, V>(m: OMap<K, V>, p: (K, V))
    requires p in m
    ensures Has(m, p.0)
  {
    var i :| 0 <= i < |m| && m[i] == p;
  }
}
