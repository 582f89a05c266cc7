/**
 * A Python `dict` as the program uses it: key/value pairs in insertion order,
 * where assigning to a present key replaces its value in place and assigning to
 * an absent key appends a new pair at the end.
 */
module Dicts {
  import opened Wrappers
  import opened Sequences

  type Dict<K, V> = seq<(K, V)>

  /** The keys in iteration order (`d.keys()`). */
  function Keys<K, V>(m: Dict<K, V>): (ks: seq<K>)
    ensures |ks| == |m|
    ensures forall i :: 0 <= i < |m| ==> ks[i] == m[i].0
  {
    if m == [] then [] else [m[0].0] + Keys(m[1..])
  }

  /** `d.get(k)`: the value stored under `k`, if any. */
  function Get<K(==), V>(m: Dict<K, V>, k: K): (r: Option<V>)
    ensures r.None? <==> k !in Keys(m)
  {
    if m == [] then None
    else if m[0].0 == k then Some(m[0].1)
    else Get(m[1..], k)
  }

  /** Where `Get` found its value. */
  lemma {:induction false} GetIndex<K, V>(m: Dict<K, V>, k: K) returns (i: nat)
    requires Get(m, k).Some?
    ensures i < |m| && m[i] == (k, Get(m, k).value)
  {
    if m[0].0 == k {
      i := 0;
    } else {
      var j := GetIndex(m[1..], k);
      i := j + 1;
    }
  }

  /** In a dict with distinct keys, every stored pair is what `Get` returns. */
  lemma {:induction false} GetEntry<K, V>(m: Dict<K, V>, i: nat)
    requires NoDuplicates(Keys(m))
    requires i < |m|
    ensures Get(m, m[i].0) == Some(m[i].1)
  {
    if i > 0 {
      assert Keys(m)[0] != Keys(m)[i];
      assert Keys(m[1..]) == Keys(m)[1..];
      GetEntry(m[1..], i - 1);
    }
  }

  /** `d[k] = v`: replace the value of a present key in place, else append. */
  function Put<K(==), V>(m: Dict<K, V>, k: K, v: V): Dict<K, V>
  {
    if m == [] then [(k, v)]
    else if m[0].0 == k then [(k, v)] + m[1..]
    else [m[0]] + Put(m[1..], k, v)
  }

  /** `d[k] = v` keeps the order of the keys and appends `k` if it is new. */
  lemma {:induction false} PutKeys<K, V>(m: Dict<K, V>, k: K, v: V)
    ensures Keys(Put(m, k, v)) == if k in Keys(m) then Keys(m) else Keys(m) + [k]
  {
    if m != [] && m[0].0 != k {
      PutKeys(m[1..], k, v);
      assert Keys(m) == [m[0].0] + Keys(m[1..]);
    }
  }

  /** After `d[k] = v`, `k` holds `v` and every other key holds what it held. */
  lemma {:induction false} GetPut<K, V>(m: Dict<K, V>, k: K, v: V, k': K)
    ensures Get(Put(m, k, v), k') == if k' == k then Some(v) else Get(m, k')
  {
    if m != [] && m[0].0 != k {
      GetPut(m[1..], k, v, k');
    }
  }

  /** `d[k] = v` keeps the dict's keys distinct. */
  lemma PutNoDuplicates<K, V>(m: Dict<K, V>, k: K, v: V)
    requires NoDuplicates(Keys(m))
    ensures NoDuplicates(Keys(Put(m, k, v)))
  {
    PutKeys(m, k, v);
    var ks := Keys(m);
    if k !in ks {
      AppendFresh(ks, k);
    }
  }

  /** A second assignment to the same key leaves only the second value. */
  lemma {:induction false} PutPut<K, V>(m: Dict<K, V>, k: K, v1: V, v2: V)
    ensures Put(Put(m, k, v1), k, v2) == Put(m, k, v2)
  {
    if m != [] && m[0].0 != k {
      PutPut(m[1..], k, v1, v2);
    }
  }

  /** The sum of `size` over all values. */
  function SumOf<K, V>(m: Dict<K, V>, size: V -> nat): nat
  {
    if m == [] then 0 else size(m[0].1) + SumOf(m[1..], size)
  }

  function SizeOf<V>(o: Option<V>, size: V -> nat): nat
  {
    match o
    case None => 0
    case Some(v) => size(v)
  }

  /** Assigning to a key swaps the size of its old value (0 if absent) for the new one. */
  lemma {:induction false} SumOfPut<K, V>(m: Dict<K, V>, k: K, v: V, size: V -> nat)
    ensures SumOf(Put(m, k, v), size) + SizeOf(Get(m, k), size) == SumOf(m, size) + size(v)
  {
    if m != [] && m[0].0 != k {
      SumOfPut(m[1..], k, v, size);
    }
  }
}
