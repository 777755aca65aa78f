/** Utilities over maps (maputils.h).

    A `std::map` is an ordered container: iterating it visits the entries in
    increasing key order.  It is modelled here as the sequence of its entries
    in iteration order; for integer keys, `KeysIncreasing` states that the
    sequence really is such a map, and `Put` is `m[k] = v`.  The three lookup
    helpers of the source work on any iterator range, so they are stated for
    any entry sequence. */
module MapUtils {
  import opened Wrappers

  /** The entries are in strictly increasing key order (a `std::map<int, V>`). */
  predicate KeysIncreasing<V>(m: seq<(int, V)>)
  {
    forall i, j :: 0 <= i < j < |m| ==> m[i].0 < m[j].0
  }

  function KeySet<K, V>(m: seq<(K, V)>): set<K>
  {
    set i | 0 <= i < |m| :: m[i].0
  }

  lemma KeySetCons<K, V>(e: (K, V), m: seq<(K, V)>)
    ensures KeySet([e] + m) == {e.0} + KeySet(m)
  {
    var c := [e] + m;
    forall x | x in KeySet(c) ensures x in {e.0} + KeySet(m) {
      var i :| 0 <= i < |c| && c[i].0 == x;
      if i > 0 { assert m[i - 1].0 == x; }
    }
    forall x | x in KeySet(m) ensures x in KeySet(c) {
      var i :| 0 <= i < |m| && m[i].0 == x;
      assert c[i + 1].0 == x;
    }
    assert c[0].0 == e.0;
  }

  /** `m.find(k)`: the value stored under key k, if any (first match). */
  function Lookup<K(==), V>(m: seq<(K, V)>, k: K): Option<V>
  {
    if |m| == 0 then None
    else if m[0].0 == k then Some(m[0].1)
    else Lookup(m[1..], k)
  }

  /** `find` succeeds exactly for the keys present, and returns a value
      stored under the key. */
  lemma {:induction false} LookupMeaning<K, V>(m: seq<(K, V)>, k: K)
    ensures Lookup(m, k).Some? <==> k in KeySet(m)
    ensures Lookup(m, k).Some? ==> exists i :: 0 <= i < |m| && m[i] == (k, Lookup(m, k).value)
    decreases |m|
  {
    if |m| > 0 {
      KeySetCons(m[0], m[1..]);
      assert [m[0]] + m[1..] == m;
      if m[0].0 != k {
        LookupMeaning(m[1..], k);
        var r := Lookup(m[1..], k);
        if r.Some? {
          var i :| 0 <= i < |m[1..]| && m[1..][i] == (k, r.value);
          assert m[i + 1] == (k, r.value);
        }
      } else {
        assert m[0] == (k, m[0].1);
      }
    }
  }

  /** A key that no earlier entry has finds the value at its position. */
  lemma {:induction false} LookupFirst<K, V>(m: seq<(K, V)>, i: nat)
    requires i < |m| && forall j :: 0 <= j < i ==> m[j].0 != m[i].0
    ensures Lookup(m, m[i].0) == Some(m[i].1)
    decreases i
  {
    if i > 0 {
      LookupFirst(m[1..], i - 1);
    }
  }

  /** In a map the key at position i finds the value at position i. */
  lemma LookupAt<V>(m: seq<(int, V)>, i: nat)
    requires KeysIncreasing(m) && i < |m|
    ensures Lookup(m, m[i].0) == Some(m[i].1)
    decreases i
  {
    if i > 0 {
      LookupAt(m[1..], i - 1);
    }
  }

  /** `m[k] = v` on a map: insert before the first greater key, or
      overwrite the value of an equal key. */
  function Put<V>(m: seq<(int, V)>, k: int, v: V): seq<(int, V)>
  {
    if |m| == 0 then [(k, v)]
    else if k < m[0].0 then [(k, v)] + m
    else if k == m[0].0 then [(k, v)] + m[1..]
    else [m[0]] + Put(m[1..], k, v)
  }

  /** `m[k] = v` adds k to the keys and no other key. */
  lemma {:induction false} PutKeySet<V>(m: seq<(int, V)>, k: int, v: V)
    ensures KeySet(Put(m, k, v)) == KeySet(m) + {k}
    decreases |m|
  {
    if |m| == 0 {
      KeySetCons((k, v), m);
      assert [(k, v)] + m == [(k, v)];
    } else if k < m[0].0 {
      KeySetCons((k, v), m);
    } else if k == m[0].0 {
      KeySetCons((k, v), m[1..]);
      KeySetCons(m[0], m[1..]);
      assert [m[0]] + m[1..] == m;
    } else {
      var rest := Put(m[1..], k, v);
      PutKeySet(m[1..], k, v);
      KeySetCons(m[0], m[1..]);
      assert [m[0]] + m[1..] == m;
      KeySetCons(m[0], rest);
    }
  }

  /** `m[k] = v` keeps a map a map. */
  lemma {:induction false} PutKeysIncreasing<V>(m: seq<(int, V)>, k: int, v: V)
    requires KeysIncreasing(m)
    ensures KeysIncreasing(Put(m, k, v))
    decreases |m|
  {
    if |m| > 0 && k > m[0].0 {
      var rest := Put(m[1..], k, v);
      PutKeysIncreasing(m[1..], k, v);
      PutKeySet(m[1..], k, v);
      forall i | 0 <= i < |rest| ensures m[0].0 < rest[i].0 {
        assert rest[i].0 in KeySet(rest);
        if rest[i].0 != k {
          var j :| 0 <= j < |m[1..]| && m[1..][j].0 == rest[i].0;
          assert m[j + 1].0 == rest[i].0;
        }
      }
      assert Put(m, k, v) == [m[0]] + rest;
    }
  }

  /** After `m[k] = v`, k finds v and every other key finds what it found
      before: a later assignment to the same key overwrites the earlier one. */
  lemma {:induction false} PutLookup<V>(m: seq<(int, V)>, k: int, v: V, k': int)
    ensures Lookup(Put(m, k, v), k') == if k' == k then Some(v) else Lookup(m, k')
    decreases |m|
  {
    if |m| > 0 && k > m[0].0 {
      PutLookup(m[1..], k, v, k');
    }
  }

  // ----- mapMinValue -----

  /** Position of the first entry whose key is not greater than any other
      (what `std::min_element` with `mapKeyCompare` finds). */
  function MinKeyIndex<V>(m: seq<(int, V)>): (i: nat)
    requires |m| > 0
    ensures i < |m|
    ensures forall j :: 0 <= j < |m| ==> m[i].0 <= m[j].0
    ensures forall j :: 0 <= j < i ==> m[j].0 > m[i].0
  {
    if |m| == 1 then 0
    else
      var t := MinKeyIndex(m[1..]);
      if m[0].0 <= m[1..][t].0 then 0 else t + 1
  }

  /** `mapMinValue`: the value under the smallest key of the range, or the
      default `Result()` for an empty range. */
  function MapMinValue<V>(m: seq<(int, V)>, dflt: V): (r: V)
  {
    if |m| == 0 then dflt else m[MinKeyIndex(m)].1
  }

  /** For a real map the smallest key is the first entry. */
  lemma MapMinValueOfMap<V>(m: seq<(int, V)>, dflt: V)
    requires KeysIncreasing(m)
    ensures |m| == 0 ==> MapMinValue(m, dflt) == dflt
    ensures |m| > 0 ==> (MapMinValue(m, dflt) == m[0].1
                         && forall k :: k in KeySet(m) ==> m[0].0 <= k)
  {
    if |m| > 0 {
      var i := MinKeyIndex(m);
      if i > 0 {
        assert false;
      }
    }
  }

  // ----- mapMaxValueKey -----

  /** Position of the first entry holding a maximal value (what
      `std::max_element` with `mapValueCompare` finds). */
  function MaxValueIndex<K>(m: seq<(K, int)>): (i: nat)
    requires |m| > 0
    ensures i < |m|
    ensures forall j :: 0 <= j < |m| ==> m[j].1 <= m[i].1
    ensures forall j :: 0 <= j < i ==> m[j].1 < m[i].1
  {
    if |m| == 1 then 0
    else
      var t := MaxValueIndex(m[1..]);
      if m[0].1 >= m[1..][t].1 then 0 else t + 1
  }

  /** `mapMaxValueKey`: the key of the first entry with a maximal value, or
      the default `Result()` for an empty range. */
  function MapMaxValueKey<K>(m: seq<(K, int)>, dflt: K): (r: K)
  {
    if |m| == 0 then dflt else m[MaxValueIndex(m)].0
  }

  /** The key returned by `mapMaxValueKey` holds a value no other entry
      exceeds, and on a tie it is the first such entry. */
  lemma MapMaxValueKeyIsFirstMax<K>(m: seq<(K, int)>, dflt: K)
    requires |m| > 0
    ensures exists i :: (0 <= i < |m| && m[i].0 == MapMaxValueKey(m, dflt)
                         && (forall j :: 0 <= j < |m| ==> m[j].1 <= m[i].1)
                         && (forall j :: 0 <= j < i ==> m[j].1 < m[i].1))
  {
    var i := MaxValueIndex(m);
    assert m[i].0 == MapMaxValueKey(m, dflt);
  }

  // ----- mapCountValue -----

  /** Number of entries whose value equals `val`. */
  function CountValue<K, V(==)>(m: seq<(K, V)>, val: V): (n: nat)
    ensures n <= |m|
  {
    if |m| == 0 then 0
    else CountValue(m[..|m| - 1], val) + (if m[|m| - 1].1 == val then 1 else 0)
  }

  /** `mapCountValue`: counts, in one pass over the map, the entries whose
      value equals `val`. */
  method MapCountValue<K, V(==)>(m: seq<(K, V)>, val: V) returns (number: int)
    ensures number == CountValue(m, val)
  {
    number := 0;
    var i := 0;
    while i < |m|
      invariant 0 <= i <= |m|
      invariant number == CountValue(m[..i], val)
    {
      assert m[..i + 1][..i] == m[..i];
      if m[i].1 == val {
        number := number + 1;
      }
      i := i + 1;
    }
    assert m[..|m|] == m;
  }

  /** A value held at position i is counted at least once. */
  lemma {:induction false} CountValueAtLeastOne<K, V>(m: seq<(K, V)>, i: nat)
    requires i < |m|
    ensures CountValue(m, m[i].1) >= 1
    decreases |m|
  {
    if i < |m| - 1 {
      CountValueAtLeastOne(m[..|m| - 1], i);
    }
  }

  /** An empty map counts nothing; a non-empty map holds its maximal value at
      least once: mapCountValue(m, m[mapMaxValueKey(m)]) >= 1. */
  lemma CountOfMaxValue(m: seq<(int, int)>, dflt: int)
    requires KeysIncreasing(m)
    ensures |m| == 0 ==> CountValue(m, dflt) == 0
    ensures |m| > 0 ==> (Lookup(m, MapMaxValueKey(m, dflt)).Some?
                         && CountValue(m, Lookup(m, MapMaxValueKey(m, dflt)).value) >= 1)
  {
    if |m| > 0 {
      var i := MaxValueIndex(m);
      LookupAt(m, i);
      CountValueAtLeastOne(m, i);
    }
  }

  // ----- MapValueIterator -----

  /** An iterator over a map that dereferences to the mapped value; it wraps
      the position of the underlying map iterator (|m| is `end()`). */
  datatype MapValueIterator = MapValueIterator(pos: nat)

  function Begin(): MapValueIterator { MapValueIterator(0) }

  function End<K, V>(m: seq<(K, V)>): MapValueIterator { MapValueIterator(|m|) }

  /** `operator*`: the mapped value of the current entry. */
  function Deref<K, V>(m: seq<(K, V)>, it: MapValueIterator): V
    requires it.pos < |m|
  {
    m[it.pos].1
  }

  /** `operator++`. */
  function Next(it: MapValueIterator): MapValueIterator
  {
    MapValueIterator(it.pos + 1)
  }

  /** `operator==` compares the underlying iterators. */
  predicate IterEq(a: MapValueIterator, b: MapValueIterator)
  {
    a.pos == b.pos
  }

  function Advance(it: MapValueIterator, k: nat): MapValueIterator
    decreases k
  {
    if k == 0 then it else Advance(Next(it), k - 1)
  }

  /** The mapped values, one per entry, in key order. */
  function Values<K, V>(m: seq<(K, V)>): (vs: seq<V>)
    ensures |vs| == |m|
    ensures forall k :: 0 <= k < |m| ==> vs[k] == m[k].1
  {
    if |m| == 0 then [] else [m[0].1] + Values(m[1..])
  }

  /** Walking a MapValueIterator from begin() visits exactly the mapped
      values in key order, and it meets end() after |m| steps and not before. */
  lemma {:induction false} IterationVisitsValues<K, V>(m: seq<(K, V)>, k: nat)
    ensures Advance(Begin(), k).pos == k
    ensures k < |m| ==> Deref(m, Advance(Begin(), k)) == Values(m)[k]
    ensures IterEq(Advance(Begin(), k), End(m)) <==> k == |m|
  {
    AdvanceCounts(Begin(), k);
  }

  lemma {:induction false} AdvanceCounts(it: MapValueIterator, k: nat)
    ensures Advance(it, k).pos == it.pos + k
    decreases k
  {
    if k > 0 {
      AdvanceCounts(Next(it), k - 1);
    }
  }
}
