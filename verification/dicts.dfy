/** Dictionaries as association lists in insertion order: the order in
    which keys are first stored is kept, and storing an existing key
    replaces its value in place. */
module Dicts {
  import opened Values

  type Dict<K, V> = seq<(K, V)>

  function Keys<K, V>(d: Dict<K, V>): seq<K> {
    seq(|d|, i requires 0 <= i < |d| => d[i].0)
  }

  lemma KeysCons<K, V>(d: Dict<K, V>)
    requires |d| > 0
    ensures Keys(d) == [d[0].0] + Keys(d[1..])
  {
  }

  predicate DistinctKeys<K(==), V>(d: Dict<K, V>) {
    forall i, j :: 0 <= i < j < |d| ==> d[i].0 != d[j].0
  }

  /** `d[k]`, or `None` for a missing key. */
  function Get<K(==), V>(d: Dict<K, V>, k: K): (r: Option<V>)
    ensures r.None? <==> k !in Keys(d)
    ensures r.Some? ==> (k, r.value) in d
  {
    if |d| == 0 then None
    else
      KeysCons(d);
      if d[0].0 == k then Some(d[0].1)
      else
        var r := Get(d[1..], k);
        assert forall x :: x in d[1..] ==> x in d;
        r
  }

  /** `d[k] = v`. */
  function Put<K(==,!new), V>(d: Dict<K, V>, k: K, v: V): (r: Dict<K, V>)
    ensures Get(r, k) == Some(v)
    ensures forall k' :: k' != k ==> Get(r, k') == Get(d, k')
  {
    if |d| == 0 then [(k, v)]
    else if d[0].0 == k then [(k, v)] + d[1..]
    else
      var rest := Put(d[1..], k, v);
      var r := [d[0]] + rest;
      assert r[1..] == rest;
      r
  }

  /** Storing a key keeps the order of the keys: a new key goes last, an
      existing one keeps its place. */
  lemma {:induction false} PutKeys<K(!new), V>(d: Dict<K, V>, k: K, v: V)
    ensures k in Keys(d) ==> Keys(Put(d, k, v)) == Keys(d)
    ensures k !in Keys(d) ==> Put(d, k, v) == d + [(k, v)]
    decreases |d|
  {
    if |d| > 0 {
      var r := Put(d, k, v);
      if d[0].0 != k {
        PutKeys(d[1..], k, v);
        assert r == [d[0]] + Put(d[1..], k, v);
        KeysCons(d);
        KeysCons(r);
        assert d == [d[0]] + d[1..];
      } else {
        assert Keys(r) == Keys(d);
      }
    }
  }

  /** Storing a pair adds no other pair. */
  lemma {:induction false} PutEntries<K(!new), V>(d: Dict<K, V>, k: K, v: V)
    ensures forall x :: x in Put(d, k, v) ==> x in d || x == (k, v)
    decreases |d|
  {
    if |d| > 0 && d[0].0 != k {
      PutEntries(d[1..], k, v);
      assert Put(d, k, v) == [d[0]] + Put(d[1..], k, v);
    }
  }

  /** Storing a key keeps the keys distinct. */
  lemma PutDistinct<K(!new), V>(d: Dict<K, V>, k: K, v: V)
    requires DistinctKeys(d)
    ensures DistinctKeys(Put(d, k, v))
  {
    PutKeys(d, k, v);
    var r := Put(d, k, v);
    if k in Keys(d) {
      assert |Keys(r)| == |Keys(d)|;
      forall i, j | 0 <= i < j < |r|
        ensures r[i].0 != r[j].0
      {
        assert r[i].0 == Keys(r)[i] && r[j].0 == Keys(r)[j];
        assert Keys(d)[i] == d[i].0 && Keys(d)[j] == d[j].0;
      }
    } else {
      forall i, j | 0 <= i < j < |r|
        ensures r[i].0 != r[j].0
      {
        if j == |d| {
          assert d[i].0 == Keys(d)[i];
        }
      }
    }
  }

  /** Storing into a dictionary with distinct keys: the keys stay distinct,
      the key set gains `k`, and the only new pair is `(k, v)`. */
  lemma PutSpec<K(!new), V>(d: Dict<K, V>, k: K, v: V)
    requires DistinctKeys(d)
    ensures DistinctKeys(Put(d, k, v))
    ensures forall x :: x in Put(d, k, v) ==> x in d || x == (k, v)
    ensures forall x :: x in Keys(Put(d, k, v)) <==> x in Keys(d) || x == k
  {
    PutDistinct(d, k, v);
    PutEntries(d, k, v);
    PutKeySet(d, k, v);
  }

  /** Storing a key adds it to the keys and adds no other. */
  lemma PutKeySet<K(!new), V>(d: Dict<K, V>, k: K, v: V)
    ensures forall x :: x in Keys(Put(d, k, v)) <==> x in Keys(d) || x == k
  {
    PutKeys(d, k, v);
    if k !in Keys(d) {
      KeysAppend(d, (k, v));
    }
  }

  lemma KeysAppend<K, V>(d: Dict<K, V>, e: (K, V))
    ensures Keys(d + [e]) == Keys(d) + [e.0]
  {
  }

  /** In a dictionary with distinct keys, every stored pair is what `Get`
      finds for its key. */
  lemma {:induction false} GetStored<K, V>(d: Dict<K, V>, i: int)
    requires DistinctKeys(d) && 0 <= i < |d|
    ensures Get(d, d[i].0) == Some(d[i].1)
    decreases |d|
  {
    if i > 0 {
      GetStored(d[1..], i - 1);
    }
  }
}
