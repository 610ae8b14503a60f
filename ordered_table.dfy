/**
 * The logical content of one ordered key-value table of the embedded store.
 *
 * Keys are tuples of unsigned integers. The model assumes that the store
 * orders keys as it orders the tuples (the key encoding is not part of this
 * model) and states that order directly, as the lexicographic order on
 * `seq<int>`. A table is the ascending list of its entries, one per key.
 */
module OrderedTable {
  import opened Wrappers

  type Key = seq<int>

  /** Lexicographic order on tuples; a proper prefix comes first. */
  predicate Less(a: Key, b: Key)
    decreases |a|
  {
    if |a| == 0 then |b| > 0
    else |b| > 0 && (a[0] < b[0] || (a[0] == b[0] && Less(a[1..], b[1..])))
  }

  lemma {:induction false} LessIrreflexive(a: Key)
    ensures !Less(a, a)
    decreases |a|
  {
    if |a| > 0 {
      LessIrreflexive(a[1..]);
    }
  }

  lemma {:induction false} LessTransitive(a: Key, b: Key, c: Key)
    requires Less(a, b) && Less(b, c)
    ensures Less(a, c)
    decreases |a|
  {
    if |a| > 0 && a[0] == b[0] && b[0] == c[0] {
      LessTransitive(a[1..], b[1..], c[1..]);
    }
  }

  /** Any two distinct keys are ordered one way or the other. */
  lemma {:induction false} LessTotal(a: Key, b: Key)
    ensures a == b || Less(a, b) || Less(b, a)
    decreases |a|
  {
    if |a| > 0 && |b| > 0 && a[0] == b[0] {
      LessTotal(a[1..], b[1..]);
      if a[1..] == b[1..] {
        assert a == [a[0]] + a[1..] && b == [b[0]] + b[1..];
      }
    }
  }

  lemma {:induction false} LessAsymmetric(a: Key, b: Key)
    requires Less(a, b)
    ensures !Less(b, a)
    decreases |a|
  {
    if |a| > 0 && |b| > 0 && a[0] == b[0] {
      LessAsymmetric(a[1..], b[1..]);
    }
  }

  /** The order on one-component keys. */
  lemma {:induction false} LessSingle(a0: int, b0: int)
    ensures Less([a0], [b0]) <==> a0 < b0
  {
    assert [a0][1..] == [] && [b0][1..] == [];
  }

  /** The order on pairs, component by component. */
  lemma {:induction false} LessPair(a0: int, a1: int, b0: int, b1: int)
    ensures Less([a0, a1], [b0, b1]) <==> a0 < b0 || (a0 == b0 && a1 < b1)
  {
    assert [a0, a1][1..] == [a1] && [b0, b1][1..] == [b1];
    LessSingle(a1, b1);
  }

  /** The order on triples, component by component. */
  lemma {:induction false} LessTriple(a0: int, a1: int, a2: int, b0: int, b1: int, b2: int)
    ensures Less([a0, a1, a2], [b0, b1, b2])
        <==> a0 < b0 || (a0 == b0 && (a1 < b1 || (a1 == b1 && a2 < b2)))
  {
    assert [a0, a1, a2][1..] == [a1, a2] && [b0, b1, b2][1..] == [b1, b2];
    LessPair(a1, a2, b1, b2);
  }

  datatype Entry<V> = Entry(key: Key, value: V)

  /** Strictly ascending keys: the shape of every table of the store. */
  predicate Sorted<V>(t: seq<Entry<V>>)
  {
    forall i, j :: 0 <= i < j < |t| ==> Less(t[i].key, t[j].key)
  }

  function KeySet<V>(t: seq<Entry<V>>): set<Key>
  {
    set i | 0 <= i < |t| :: t[i].key
  }

  lemma {:induction false} KeySetCons<V>(e: Entry<V>, t: seq<Entry<V>>)
    ensures KeySet([e] + t) == {e.key} + KeySet(t)
  {
    var r := [e] + t;
    assert r[0].key == e.key;
    forall k | k in KeySet(r) ensures k in {e.key} + KeySet(t) {
      var i :| 0 <= i < |r| && r[i].key == k;
      if i > 0 { assert t[i - 1].key == k; }
    }
    forall k | k in KeySet(t) ensures k in KeySet(r) {
      var i :| 0 <= i < |t| && t[i].key == k;
      assert r[i + 1].key == k;
    }
  }

  /** A tail of a sorted table is sorted. */
  lemma {:induction false} SortedTail<V>(t: seq<Entry<V>>)
    requires Sorted(t) && |t| > 0
    ensures Sorted(t[1..])
  {
    forall i, j | 0 <= i < j < |t| - 1 ensures Less(t[1..][i].key, t[1..][j].key) {
      assert t[1..][i] == t[i + 1] && t[1..][j] == t[j + 1];
    }
  }

  /** The first key of a sorted table is below every key of its tail. */
  lemma {:induction false} HeadBelowTail<V>(t: seq<Entry<V>>)
    requires Sorted(t) && |t| > 0
    ensures forall k :: k in KeySet(t[1..]) ==> Less(t[0].key, k)
  {
    forall k | k in KeySet(t[1..]) ensures Less(t[0].key, k) {
      var i :| 0 <= i < |t| - 1 && t[1..][i].key == k;
      assert t[i + 1].key == k;
    }
  }

  /** An entry below every key of a sorted table can be put in front of it. */
  lemma {:induction false} SortedCons<V>(e: Entry<V>, t: seq<Entry<V>>)
    requires Sorted(t)
    requires forall k :: k in KeySet(t) ==> Less(e.key, k)
    ensures Sorted([e] + t)
  {
    var r := [e] + t;
    forall i, j | 0 <= i < j < |r| ensures Less(r[i].key, r[j].key) {
      assert r[j] == t[j - 1];
      if i == 0 {
        assert t[j - 1].key in KeySet(t);
      } else {
        assert r[i] == t[i - 1];
      }
    }
  }

  /** `table.get(k)` */
  function Get<V>(t: seq<Entry<V>>, k: Key): (r: Option<V>)
    ensures r.Some? <==> k in KeySet(t)
    ensures r.Some? ==> exists i :: 0 <= i < |t| && t[i] == Entry(k, r.value)
  {
    if |t| == 0 then None
    else if t[0].key == k then Some(t[0].value)
    else
      KeySetCons(t[0], t[1..]);
      assert t == [t[0]] + t[1..];
      var r := Get(t[1..], k);
      assert r.Some? ==> exists i :: 0 <= i < |t| && t[i] == Entry(k, r.value) by {
        if r.Some? {
          var i :| 0 <= i < |t| - 1 && t[1..][i] == Entry(k, r.value);
          assert t[i + 1] == Entry(k, r.value);
        }
      }
      r
  }

  /** In a sorted table, the entry at any index is what `Get` finds for its key. */
  lemma {:induction false} GetAt<V>(t: seq<Entry<V>>, i: int)
    requires Sorted(t) && 0 <= i < |t|
    ensures Get(t, t[i].key) == Some(t[i].value)
  {
    var j :| 0 <= j < |t| && t[j] == Entry(t[i].key, Get(t, t[i].key).value);
    if i != j {
      if i < j { LessIrreflexive(t[i].key); } else { LessIrreflexive(t[j].key); }
    }
  }

  /**
   * `table.insert(k, v)`: the table stays sorted and gains the key `k`.
   */
  function Insert<V>(t: seq<Entry<V>>, k: Key, v: V): (r: seq<Entry<V>>)
    requires Sorted(t)
    ensures Sorted(r)
    ensures KeySet(r) == KeySet(t) + {k}
    decreases |t|
  {
    if |t| == 0 then
      assert [Entry(k, v)][0].key == k;
      [Entry(k, v)]
    else
      SortedTail(t);
      HeadBelowTail(t);
      KeySetCons(t[0], t[1..]);
      assert t == [t[0]] + t[1..];
      if t[0].key == k then
        KeySetCons(Entry(k, v), t[1..]);
        SortedCons(Entry(k, v), t[1..]);
        [Entry(k, v)] + t[1..]
      else if Less(k, t[0].key) then
        KeySetCons(Entry(k, v), t);
        forall k' | k' in KeySet(t) ensures Less(k, k') {
          if k' != t[0].key { LessTransitive(k, t[0].key, k'); }
        }
        SortedCons(Entry(k, v), t);
        [Entry(k, v)] + t
      else
        LessTotal(k, t[0].key);
        var rest := Insert(t[1..], k, v);
        KeySetCons(t[0], rest);
        SortedCons(t[0], rest);
        [t[0]] + rest
  }

  /** After an insert the table maps `k` to `v` and every other key as before. */
  lemma {:induction false} GetInsert<V>(t: seq<Entry<V>>, k: Key, v: V, k': Key)
    requires Sorted(t)
    ensures Get(Insert(t, k, v), k') == if k' == k then Some(v) else Get(t, k')
    decreases |t|
  {
    if |t| > 0 && t[0].key != k && !Less(k, t[0].key) {
      GetInsert(t[1..], k, v, k');
      assert ([t[0]] + Insert(t[1..], k, v))[1..] == Insert(t[1..], k, v);
    } else if |t| > 0 && t[0].key == k {
      assert ([Entry(k, v)] + t[1..])[1..] == t[1..];
    } else if |t| > 0 {
      assert ([Entry(k, v)] + t)[1..] == t;
    }
  }

  /** `table.last()`: the entry with the greatest key. */
  function Last<V>(t: seq<Entry<V>>): (r: Option<Entry<V>>)
    requires Sorted(t)
    ensures r.None? <==> KeySet(t) == {}
    ensures r.Some? ==> Get(t, r.value.key) == Some(r.value.value)
    ensures r.Some? ==> forall k :: k in KeySet(t) && k != r.value.key ==> Less(k, r.value.key)
  {
    if |t| == 0 then None
    else
      assert t[|t| - 1].key in KeySet(t);
      GetAt(t, |t| - 1);
      Some(t[|t| - 1])
  }

  /** The half-open key interval `lo..hi`. */
  predicate InBounds(k: Key, lo: Key, hi: Key)
  {
    !Less(k, lo) && Less(k, hi)
  }

  /**
   * `table.range(lo..hi)`: the entries whose key lies in `lo..hi`, ascending.
   */
  function Range<V>(t: seq<Entry<V>>, lo: Key, hi: Key): (r: seq<Entry<V>>)
    requires Sorted(t)
    ensures Sorted(r)
    ensures forall j :: 0 <= j < |r| ==> InBounds(r[j].key, lo, hi) && r[j].key in KeySet(t)
    ensures KeySet(r) == set k | k in KeySet(t) && InBounds(k, lo, hi)
    decreases |t|
  {
    if |t| == 0 then []
    else
      SortedTail(t);
      var rest := Range(t[1..], lo, hi);
      KeySetCons(t[0], t[1..]);
      assert t == [t[0]] + t[1..];
      if InBounds(t[0].key, lo, hi) then
        HeadBelowTail(t);
        KeySetCons(t[0], rest);
        SortedCons(t[0], rest);
        var r := [t[0]] + rest;
        assert forall j :: 1 <= j < |r| ==> r[j] == rest[j - 1];
        r
      else
        rest
  }

  /** The range is the table restricted to the interval: lookups agree inside it and fail outside. */
  lemma {:induction false} GetRange<V>(t: seq<Entry<V>>, lo: Key, hi: Key, k: Key)
    requires Sorted(t)
    ensures Get(Range(t, lo, hi), k) == if InBounds(k, lo, hi) then Get(t, k) else None
    decreases |t|
  {
    if |t| > 0 {
      GetRange(t[1..], lo, hi, k);
      var rest := Range(t[1..], lo, hi);
      if InBounds(t[0].key, lo, hi) {
        assert ([t[0]] + rest)[1..] == rest;
      }
    }
  }
}
