/** Python's `dict` as the code here uses it: entries kept in insertion
    order, each key at most once. Assigning to a present key replaces its
    value in place; assigning to a new key appends it. */
module OrderedMaps {
  import opened Wrappers

  type OrderedMap<K, V> = seq<(K, V)>

  function Keys<K, V>(m: OrderedMap<K, V>): (ks: seq<K>)
    ensures |ks| == |m| && forall i :: 0 <= i < |m| ==> ks[i] == m[i].0
  {
    seq(|m|, i requires 0 <= i < |m| => m[i].0)
  }

  ghost predicate DistinctKeys<K, V>(m: OrderedMap<K, V>) {
    forall i, j :: 0 <= i < j < |m| ==> m[i].0 != m[j].0
  }

  /** The entries appear in increasing `rank` of their keys. */
  ghost predicate SortedBy<K, V>(m: OrderedMap<K, V>, rank: K -> int) {
    forall a, b :: 0 <= a < b < |m| ==> rank(m[a].0) < rank(m[b].0)
  }

  /** `m.get(k)`. */
  function Get<K(==), V>(m: OrderedMap<K, V>, k: K): Option<V>
  {
    if m == [] then None else if m[0].0 == k then Some(m[0].1) else Get(m[1..], k)
  }

  /** In a map with distinct keys, looking a key up finds exactly its entry. */
  lemma {:induction false} GetEntry<K, V>(m: OrderedMap<K, V>, k: K, v: V)
    requires DistinctKeys(m)
    ensures Get(m, k) == Some(v) <==> (k, v) in m
  {
    if m != [] {
      assert DistinctKeys(m[1..]);
      GetEntry(m[1..], k, v);
      if m[0].0 == k {
        assert forall i :: 1 <= i < |m| ==> m[i].0 != k;
      }
    }
  }

  /** `m[k] = v`. */
  function Assign<K(==), V>(m: OrderedMap<K, V>, k: K, v: V): OrderedMap<K, V>
  {
    if m == [] then
      [(k, v)]
    else if m[0].0 == k then
      [(k, v)] + m[1..]
    else
      [m[0]] + Assign(m[1..], k, v)
  }

  /** After `m[k] = v`, `k` maps to `v` and every other key to what it
      mapped to before. */
  lemma {:induction false} AssignGet<K, V>(m: OrderedMap<K, V>, k: K, v: V, x: K)
    ensures Get(Assign(m, k, v), x) == if x == k then Some(v) else Get(m, x)
  {
    if m != [] && m[0].0 != k {
      AssignGet(m[1..], k, v, x);
    }
  }

  /** Assigning to a key the dict does not hold appends the entry. */
  lemma {:induction false} AssignAppends<K, V>(m: OrderedMap<K, V>, k: K, v: V)
    requires forall i :: 0 <= i < |m| ==> m[i].0 != k
    ensures Assign(m, k, v) == m + [(k, v)]
  {
    if m != [] {
      var tail := m[1..];
      assert forall i :: 0 <= i < |tail| ==> tail[i] == m[i + 1];
      AssignAppends(tail, k, v);
      assert Assign(m, k, v) == [m[0]] + (tail + [(k, v)]);
      assert m == [m[0]] + tail;
    }
  }

  /** Assigning to a key the dict holds changes no key and no position. */
  lemma {:induction false} AssignInPlace<K, V>(m: OrderedMap<K, V>, k: K, v: V, p: nat)
    requires p < |m| && m[p].0 == k
    ensures |Assign(m, k, v)| == |m|
    ensures forall i :: 0 <= i < |m| ==> Assign(m, k, v)[i].0 == m[i].0
  {
    if m[0].0 != k {
      var tail := m[1..];
      assert tail[p - 1] == m[p];
      AssignInPlace(tail, k, v, p - 1);
      var r := Assign(m, k, v);
      assert r == [m[0]] + Assign(tail, k, v);
      forall i | 0 < i < |m|
        ensures r[i].0 == m[i].0
      {
        assert r[i] == Assign(tail, k, v)[i - 1] && m[i] == tail[i - 1];
      }
    }
  }

  /** A new key is appended; a present key keeps its position. */
  lemma AssignKeys<K, V>(m: OrderedMap<K, V>, k: K, v: V)
    ensures k !in Keys(m) ==> Assign(m, k, v) == m + [(k, v)]
    ensures k in Keys(m) ==> Keys(Assign(m, k, v)) == Keys(m)
  {
    if k in Keys(m) {
      var p :| 0 <= p < |m| && Keys(m)[p] == k;
      AssignInPlace(m, k, v, p);
      var r := Assign(m, k, v);
      assert forall i :: 0 <= i < |r| ==> Keys(r)[i] == Keys(m)[i];
    } else {
      assert forall i :: 0 <= i < |m| ==> Keys(m)[i] == m[i].0;
      AssignAppends(m, k, v);
    }
  }

  /** Assignment keeps the keys distinct. */
  lemma AssignDistinct<K, V>(m: OrderedMap<K, V>, k: K, v: V)
    requires DistinctKeys(m)
    ensures DistinctKeys(Assign(m, k, v))
  {
    AssignKeys(m, k, v);
    var r := Assign(m, k, v);
    if k in Keys(m) {
      forall i, j | 0 <= i < j < |r|
        ensures r[i].0 != r[j].0
      {
        assert Keys(r)[i] == Keys(m)[i] && Keys(r)[j] == Keys(m)[j];
      }
    } else {
      forall i | 0 <= i < |m|
        ensures m[i].0 != k
      {
        assert Keys(m)[i] == m[i].0;
      }
    }
  }

  /** A dict built by assigning the given entries in order, as a dict
      comprehension or `dict(pairs)` does: a later entry for a key
      overwrites an earlier one in the earlier one's position. */
  function FromSeq<K(==), V>(es: seq<(K, V)>): (r: OrderedMap<K, V>)
    ensures DistinctKeys(r)
  {
    if es == [] then
      []
    else
      var m := FromSeq(es[..|es| - 1]);
      AssignDistinct(m, es[|es| - 1].0, es[|es| - 1].1);
      Assign(m, es[|es| - 1].0, es[|es| - 1].1)
  }

  /** `{k: v for k, v in m.items() if keep(v)}`. */
  function Filter<K, V>(m: OrderedMap<K, V>, keep: V -> bool): OrderedMap<K, V>
  {
    if m == [] then [] else (if keep(m[0].1) then [m[0]] else []) + Filter(m[1..], keep)
  }

  /** Position of the first occurrence of `x` in `xs` (`|xs|` when absent). */
  function FirstIndex<T(==)>(xs: seq<T>, x: T): (i: nat)
    ensures i <= |xs|
    ensures i < |xs| <==> x in xs
    ensures i < |xs| ==> xs[i] == x && forall j :: 0 <= j < i ==> xs[j] != x
  {
    if xs == [] then 0 else if xs[0] == x then 0 else 1 + FirstIndex(xs[1..], x)
  }

  /** The value of the last entry for `k`, if any. */
  function LastValue<K(==), V>(es: seq<(K, V)>, k: K): Option<V>
  {
    if es == [] then None
    else if es[|es| - 1].0 == k then Some(es[|es| - 1].1)
    else LastValue(es[..|es| - 1], k)
  }

  /** Entry `i` of `es` is `(k, v)` and no later entry has key `k`. */
  ghost predicate LastEntry<K, V>(es: seq<(K, V)>, k: K, v: V, i: int) {
    0 <= i < |es| && es[i] == (k, v) && forall j :: i < j < |es| ==> es[j].0 != k
  }

  /** `LastValue` finds the entry after which the key no longer occurs. */
  lemma {:induction false} LastValueSpec<K, V>(es: seq<(K, V)>, k: K, v: V)
    ensures LastValue(es, k) == Some(v) <==> exists i :: LastEntry(es, k, v, i)
  {
    if es != [] {
      var n := |es| - 1;
      var prefix := es[..n];
      if es[n].0 == k {
        if LastValue(es, k) == Some(v) {
          assert LastEntry(es, k, v, n);
        }
        if exists i :: LastEntry(es, k, v, i) {
          var i :| LastEntry(es, k, v, i);
          assert i == n;
        }
      } else {
        LastValueSpec(prefix, k, v);
        if exists i :: LastEntry(es, k, v, i) {
          var i :| LastEntry(es, k, v, i);
          assert LastEntry(prefix, k, v, i);
        }
        if exists i :: LastEntry(prefix, k, v, i) {
          var i :| LastEntry(prefix, k, v, i);
          assert LastEntry(es, k, v, i);
        }
      }
    }
  }

  /** Looking a key up in a dict built from entries finds the last value
      given for it. */
  lemma {:induction false} FromSeqGet<K, V>(es: seq<(K, V)>, k: K)
    ensures Get(FromSeq(es), k) == LastValue(es, k)
  {
    if es != [] {
      FromSeqGet(es[..|es| - 1], k);
      AssignGet(FromSeq(es[..|es| - 1]), es[|es| - 1].0, es[|es| - 1].1, k);
    }
  }

  /** An entry survives building a dict from entries and filtering it
      exactly when its value passes and no later entry has its key. */
  lemma FilterFromSeq<K, V>(es: seq<(K, V)>, keep: V -> bool, k: K, v: V)
    ensures (k, v) in Filter(FromSeq(es), keep) <==> keep(v) && exists i :: LastEntry(es, k, v, i)
  {
    FilterEntries(FromSeq(es), keep, (k, v));
    GetEntry(FromSeq(es), k, v);
    FromSeqGet(es, k);
    LastValueSpec(es, k, v);
  }

  /** A dict built from entries holds exactly the keys the entries give. */
  lemma {:induction false} FromSeqKeys<K, V>(es: seq<(K, V)>, k: K)
    ensures k in Keys(FromSeq(es)) <==> k in Keys(es)
  {
    if es != [] {
      var n := |es| - 1;
      var prefix := es[..n];
      var m := FromSeq(prefix);
      FromSeqKeys(prefix, k);
      assert Keys(es) == Keys(prefix) + [es[n].0];
      var r := FromSeq(es);
      AssignKeys(m, es[n].0, es[n].1);
      if es[n].0 in Keys(m) {
        assert Keys(r) == Keys(m);
      } else {
        assert Keys(r) == Keys(m) + [es[n].0];
      }
    }
  }

  /** The keys of a dict built from entries stand in the order in which
      each key was first given. */
  lemma {:induction false} FromSeqOrder<K, V>(es: seq<(K, V)>)
    ensures SortedBy(FromSeq(es), k => FirstIndex(Keys(es), k))
  {
    if es != [] {
      var n := |es| - 1;
      var prefix := es[..n];
      var m := FromSeq(prefix);
      var r := FromSeq(es);
      var k := es[n].0;
      FromSeqOrder(prefix);
      AssignKeys(m, k, es[n].1);
      assert Keys(es) == Keys(prefix) + [k];
      forall x | x in Keys(prefix)
        ensures FirstIndex(Keys(es), x) == FirstIndex(Keys(prefix), x)
      {
        FirstIndexAppend(Keys(prefix), k, x);
      }
      forall i | 0 <= i < |m|
        ensures m[i].0 in Keys(prefix)
      {
        FromSeqKeys(prefix, m[i].0);
        assert Keys(m)[i] == m[i].0;
      }
      forall a, b | 0 <= a < b < |r|
        ensures FirstIndex(Keys(es), r[a].0) < FirstIndex(Keys(es), r[b].0)
      {
        if k in Keys(m) {
          assert Keys(r)[a] == Keys(m)[a] && Keys(r)[b] == Keys(m)[b];
        } else {
          FromSeqKeys(prefix, k);
          assert r[a] == m[a];
          if b < |m| {
            assert r[b] == m[b];
          } else {
            assert r[b].0 == k;
            FirstIndexAppend(Keys(prefix), k, k);
          }
        }
      }
    }
  }

  lemma FirstIndexAppend<T>(xs: seq<T>, y: T, x: T)
    ensures x in xs ==> FirstIndex(xs + [y], x) == FirstIndex(xs, x)
    ensures x !in xs && x == y ==> FirstIndex(xs + [y], x) == |xs|
  {
    var i := FirstIndex(xs + [y], x);
    if x in xs {
      var j := FirstIndex(xs, x);
      assert (xs + [y])[j] == x;
    } else if x == y {
      assert (xs + [y])[|xs|] == x;
    }
  }

  /** Filtering keeps exactly the entries whose value passes, each once. */
  lemma {:induction false} FilterEntries<K, V>(m: OrderedMap<K, V>, keep: V -> bool, e: (K, V))
    ensures e in Filter(m, keep) <==> e in m && keep(e.1)
  {
    if m != [] {
      FilterEntries(m[1..], keep, e);
      assert m == [m[0]] + m[1..];
    }
  }

  /** Filtering keeps the order of the entries it keeps. */
  lemma {:induction false} FilterSorted<K, V>(m: OrderedMap<K, V>, keep: V -> bool, rank: K -> int)
    requires SortedBy(m, rank)
    ensures SortedBy(Filter(m, keep), rank)
    ensures DistinctKeys(Filter(m, keep))
  {
    if m != [] {
      var rest := Filter(m[1..], keep);
      FilterSorted(m[1..], keep, rank);
      if keep(m[0].1) {
        var r := Filter(m, keep);
        assert r == [m[0]] + rest;
        forall b | 1 <= b < |r|
          ensures rank(r[0].0) < rank(r[b].0)
        {
          FilterEntries(m[1..], keep, r[b]);
          var j :| 0 <= j < |m[1..]| && m[1..][j] == r[b];
          assert m[j + 1] == r[b];
        }
      }
    }
  }
}
