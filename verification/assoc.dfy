/** PHP arrays with string keys, as ordered association lists: a sequence of
    (key, value) entries in insertion order. Every array the code builds has
    distinct keys. */
module Assoc {
  import opened Optional
  import opened Seqs

  /** `array_keys($m)`. */
  function Keys<K, V>(m: seq<(K, V)>): (ks: seq<K>)
    ensures |ks| == |m|
    ensures forall i :: 0 <= i < |m| ==> ks[i] == m[i].0
  {
    if |m| == 0 then [] else [m[0].0] + Keys(m[1..])
  }

  /** The keys of an array with one entry in front. */
  lemma KeysCons<K, V>(h: (K, V), t: seq<(K, V)>)
    ensures Keys([h] + t) == [h.0] + Keys(t)
  {
    assert ([h] + t)[1..] == t;
  }

  /** `$m[$k] ?? null`. */
  function Lookup<K(==), V>(m: seq<(K, V)>, k: K): (r: Option<V>)
    ensures r.None? <==> k !in Keys(m)
    ensures r.Some? ==> (k, r.value) in m
  {
    if |m| == 0 then None
    else if m[0].0 == k then Some(m[0].1)
    else
      var r := Lookup(m[1..], k);
      assert Keys(m) == [m[0].0] + Keys(m[1..]);
      r
  }

  /** With distinct keys, a key's value is the one stored at its entry. */
  lemma {:induction false} LookupAt<K, V>(m: seq<(K, V)>, k: K, i: nat)
    requires Distinct(Keys(m)) && i < |m| && m[i].0 == k
    ensures Lookup(m, k) == Some(m[i].1)
    decreases |m|
  {
    if i > 0 {
      assert Keys(m) == [m[0].0] + Keys(m[1..]);
      assert Keys(m)[0] != Keys(m)[i];
      LookupAt(m[1..], k, i - 1);
    }
  }

  /** `$m[$k] = $v`: the value of an existing key is replaced in place, a new
      key is appended at the end. */
  function Put<K(==), V>(m: seq<(K, V)>, k: K, v: V): (r: seq<(K, V)>)
    ensures Keys(r) == if k in Keys(m) then Keys(m) else Keys(m) + [k]
    ensures Lookup(r, k) == Some(v)
    decreases |m|
  {
    if |m| == 0 then [(k, v)]
    else
      assert m == [m[0]] + m[1..];
      KeysCons(m[0], m[1..]);
      if m[0].0 == k then
        KeysCons((k, v), m[1..]);
        [(k, v)] + m[1..]
      else
        var rest := Put(m[1..], k, v);
        KeysCons(m[0], rest);
        assert ([m[0]] + rest)[1..] == rest;
        [m[0]] + rest
  }

  /** Putting one key leaves every other key's value as it was. */
  lemma {:induction false} PutOther<K, V>(m: seq<(K, V)>, k: K, v: V, k': K)
    requires k' != k
    ensures Lookup(Put(m, k, v), k') == Lookup(m, k')
    decreases |m|
  {
    if |m| > 0 && m[0].0 != k {
      PutOther(m[1..], k, v, k');
      var r := Put(m, k, v);
      assert r[1..] == Put(m[1..], k, v);
    } else if |m| > 0 {
      assert Put(m, k, v)[1..] == m[1..];
    }
  }

  /** Putting a key keeps the keys distinct. */
  lemma PutDistinct<K, V>(m: seq<(K, V)>, k: K, v: V)
    requires Distinct(Keys(m))
    ensures Distinct(Keys(Put(m, k, v)))
  {
  }

  /** In a map with distinct keys, putting a key stores its value under that
      key and keeps every other entry as it was. */
  lemma PutEntries<K, V>(m: seq<(K, V)>, k: K, v: V)
    requires Distinct(Keys(m))
    ensures forall i :: 0 <= i < |Put(m, k, v)| && Put(m, k, v)[i].0 == k ==> Put(m, k, v)[i].1 == v
    ensures forall i :: 0 <= i < |Put(m, k, v)| && Put(m, k, v)[i].0 != k ==> Put(m, k, v)[i] in m
  {
    var r := Put(m, k, v);
    PutDistinct(m, k, v);
    forall i | 0 <= i < |r|
      ensures r[i].0 == k ==> r[i].1 == v
      ensures r[i].0 != k ==> r[i] in m
    {
      LookupAt(r, r[i].0, i);
      if r[i].0 != k {
        PutOther(m, k, v, r[i].0);
      }
    }
  }

  /** `unset($m[$k])`. */
  function Remove<K(==,!new), V>(m: seq<(K, V)>, k: K): (r: seq<(K, V)>)
    requires Distinct(Keys(m))
    ensures Distinct(Keys(r))
    ensures forall k' :: k' in Keys(r) <==> k' in Keys(m) && k' != k
    ensures forall i :: 0 <= i < |r| ==> r[i] in m && r[i].0 != k
    decreases |m|
  {
    if |m| == 0 then []
    else
      assert Keys(m) == [m[0].0] + Keys(m[1..]);
      if m[0].0 == k then m[1..]
      else
        var rest := Remove(m[1..], k);
        var r := [m[0]] + rest;
        assert r[1..] == rest;
        r
  }

  /** `array_sum($m)`. */
  function SumValues<K>(m: seq<(K, nat)>): nat
  {
    if |m| == 0 then 0 else m[0].1 + SumValues(m[1..])
  }

  /** What putting a key changes, entry by entry. */
  lemma PutStep<K, V>(acc: seq<(K, V)>, tag: K, v: V)
    requires Distinct(Keys(acc))
    ensures Distinct(Keys(Put(acc, tag, v)))
    ensures forall t :: t in Keys(Put(acc, tag, v)) <==> t in Keys(acc) || t == tag
    ensures forall e :: e in Put(acc, tag, v) ==> (e.0 == tag && e.1 == v) || (e.0 != tag && e in acc)
  {
    var rows := Put(acc, tag, v);
    PutDistinct(acc, tag, v);
    PutEntries(acc, tag, v);
    forall e | e in rows
      ensures (e.0 == tag && e.1 == v) || (e.0 != tag && e in acc)
    {
      var i :| 0 <= i < |rows| && rows[i] == e;
    }
  }

  /** Removing a key drops its entry and keeps only entries that were there. */
  lemma RemoveStep<K(!new), V>(acc: seq<(K, V)>, tag: K)
    requires Distinct(Keys(acc))
    ensures forall e :: e in Remove(acc, tag) ==> e.0 != tag && e in acc
  {
    var rows := Remove(acc, tag);
    forall e | e in rows
      ensures e.0 != tag && e in acc
    {
      var i :| 0 <= i < |rows| && rows[i] == e;
    }
  }
}
