/**
 * Insertion-ordered dictionaries, as the QA report builds them: a table is a
 * sequence of key/value pairs with distinct keys, in the order the keys were
 * first stored. Assigning to a present key replaces its value in place.
 */
module Assoc {
  import opened Wrappers

  type Table<K, V> = seq<(K, V)>

  function Keys<K, V>(t: Table<K, V>): seq<K> {
    seq(|t|, i requires 0 <= i < |t| => t[i].0)
  }

  predicate Distinct<K(==)>(ks: seq<K>) {
    forall i, j :: 0 <= i < j < |ks| ==> ks[i] != ks[j]
  }

  /** `t.get(k)`: the value stored under `k`, if any. */
  function Get<K(==), V>(t: Table<K, V>, k: K): (r: Option<V>)
    ensures r.Some? <==> k in Keys(t)
  {
    if t == [] then None
    else
      assert Keys(t) == [t[0].0] + Keys(t[1..]);
      if t[0].0 == k then Some(t[0].1) else Get(t[1..], k)
  }

  /** In a table with distinct keys, the entry with key `k` holds `Get`'s value. */
  lemma {:induction false} GetUnique<K, V>(t: Table<K, V>, k: K, i: nat)
    requires Distinct(Keys(t)) && i < |t| && t[i].0 == k
    ensures Get(t, k) == Some(t[i].1)
  {
    if i > 0 {
      assert Keys(t)[0] != Keys(t)[i];
      assert Keys(t[1..]) == Keys(t)[1..];
      GetUnique(t[1..], k, i - 1);
    }
  }

  /** `t[k] = v`. */
  function Put<K(==), V>(t: Table<K, V>, k: K, v: V): Table<K, V> {
    if t == [] then [(k, v)]
    else if t[0].0 == k then [(k, v)] + t[1..]
    else [t[0]] + Put(t[1..], k, v)
  }

  /** Storing a value keeps the keys' order, appends a new key at the end, and
      changes the value of `k` only. */
  lemma {:induction false} PutSpec<K, V>(t: Table<K, V>, k: K, v: V)
    ensures Keys(Put(t, k, v)) == Keys(t) + (if k in Keys(t) then [] else [k])
    ensures forall k' :: Get(Put(t, k, v), k') == if k' == k then Some(v) else Get(t, k')
  {
    if t != [] {
      PutSpec(t[1..], k, v);
      assert Keys(t) == [t[0].0] + Keys(t[1..]);
      if t[0].0 != k {
        assert Keys(Put(t, k, v)) == [t[0].0] + Keys(Put(t[1..], k, v));
      }
    }
  }

  /** Storing a value keeps the keys distinct. */
  lemma PutDistinct<K, V>(t: Table<K, V>, k: K, v: V)
    requires Distinct(Keys(t))
    ensures Distinct(Keys(Put(t, k, v)))
  {
    PutSpec(t, k, v);
  }

  /** Storing under a new key appends the pair. */
  lemma {:induction false} PutNew<K, V>(t: Table<K, V>, k: K, v: V)
    requires k !in Keys(t)
    ensures Put(t, k, v) == t + [(k, v)]
  {
    if t != [] {
      assert Keys(t) == [t[0].0] + Keys(t[1..]);
      PutNew(t[1..], k, v);
      assert [t[0]] + (t[1..] + [(k, v)]) == t + [(k, v)];
    }
  }

  /** `t.setdefault(k, []).append(v)`. */
  function Append<K(==)>(t: Table<K, seq<int>>, k: K, v: int): Table<K, seq<int>> {
    Put(t, k, (if Get(t, k).Some? then Get(t, k).value else []) + [v])
  }

  /** Appending to a key's list changes that key's list only, and adds the key
      at the end when it is new. */
  lemma AppendSpec<K>(t: Table<K, seq<int>>, k: K, v: int, k': K)
    ensures Keys(Append(t, k, v)) == Keys(t) + (if k in Keys(t) then [] else [k])
    ensures Get(Append(t, k, v), k')
         == if k' == k then Some((if Get(t, k).Some? then Get(t, k).value else []) + [v]) else Get(t, k')
  {
    PutSpec(t, k, (if Get(t, k).Some? then Get(t, k).value else []) + [v]);
  }

  /** The elements of `xs` without repetitions, each where it first occurs. */
  function FirstOccurrences<K(==)>(xs: seq<K>): (r: seq<K>)
    ensures Distinct(r)
    ensures forall i :: 0 <= i < |r| ==> r[i] in xs
    ensures forall i :: 0 <= i < |xs| ==> xs[i] in r
  {
    if xs == [] then []
    else
      var front := xs[..|xs| - 1];
      FirstOccurrences(front) + (if xs[|xs| - 1] in front then [] else [xs[|xs| - 1]])
  }
}
