/** Stable insertion sort with a caller-supplied "sorts before or equal"
    relation: the model of `usort`, `ksort` and SQL `ORDER BY`. */
module Sorting {
  import opened Seqs
  import opened Assoc

  ghost predicate Total<T(!new)>(le: (T, T) -> bool)
  {
    forall a, b :: le(a, b) || le(b, a)
  }

  ghost predicate Transitive<T(!new)>(le: (T, T) -> bool)
  {
    forall a, b, c :: le(a, b) && le(b, c) ==> le(a, c)
  }

  /** Orders rows of (key, count) by count, highest first. */
  predicate ByCountDescending<K>(a: (K, nat), b: (K, nat))
  {
    a.1 >= b.1
  }

  predicate Sorted<T>(s: seq<T>, le: (T, T) -> bool)
  {
    forall i, j :: 0 <= i < j < |s| ==> le(s[i], s[j])
  }

  /** Inserts `x` in front of the first element it sorts before or equal to. */
  function Insert<T>(x: T, s: seq<T>, le: (T, T) -> bool): (r: seq<T>)
    ensures multiset(r) == multiset{x} + multiset(s)
  {
    if |s| == 0 || le(x, s[0]) then [x] + s
    else
      var rest := Insert(x, s[1..], le);
      assert s == [s[0]] + s[1..];
      [s[0]] + rest
  }

  function SortBy<T>(s: seq<T>, le: (T, T) -> bool): (r: seq<T>)
    ensures multiset(r) == multiset(s)
  {
    if |s| == 0 then []
    else
      var r := Insert(s[0], SortBy(s[1..], le), le);
      assert s == [s[0]] + s[1..];
      r
  }

  lemma {:induction false} InsertSorted<T(!new)>(x: T, s: seq<T>, le: (T, T) -> bool)
    requires Total(le) && Transitive(le) && Sorted(s, le)
    ensures Sorted(Insert(x, s, le), le)
    decreases |s|
  {
    if |s| > 0 && !le(x, s[0]) {
      var rest := Insert(x, s[1..], le);
      InsertSorted(x, s[1..], le);
      assert le(s[0], x);
      forall y | y in rest
        ensures le(s[0], y)
      {
        assert y in multiset(rest);
        if y != x {
          assert y in multiset(s[1..]);
          assert y in s[1..];
        }
      }
      var r := [s[0]] + rest;
      forall i, j | 0 <= i < j < |r|
        ensures le(r[i], r[j])
      {
        if i > 0 {
          assert r[i] == rest[i - 1] && r[j] == rest[j - 1];
        } else {
          assert r[j] in rest;
        }
      }
    } else if |s| > 0 {
      var r := [x] + s;
      forall i, j | 0 <= i < j < |r|
        ensures le(r[i], r[j])
      {
        if i == 0 && j > 1 {
          assert le(s[0], s[j - 1]);
        }
      }
    }
  }

  /** Under a total preorder, the output of SortBy is sorted. */
  lemma {:induction false} SortBySorted<T(!new)>(s: seq<T>, le: (T, T) -> bool)
    requires Total(le) && Transitive(le)
    ensures Sorted(SortBy(s, le), le)
    decreases |s|
  {
    if |s| > 0 {
      SortBySorted(s[1..], le);
      InsertSorted(s[0], SortBy(s[1..], le), le);
    }
  }

  lemma DistinctCons<K, V>(h: (K, V), t: seq<(K, V)>)
    requires Distinct(Keys(t)) && h.0 !in Keys(t)
    ensures Distinct(Keys([h] + t))
  {
    KeysCons(h, t);
  }

  lemma {:induction false} InsertKeepsKeysDistinct<K, V>(x: (K, V), s: seq<(K, V)>, le: ((K, V), (K, V)) -> bool)
    requires Distinct(Keys(s)) && x.0 !in Keys(s)
    ensures Distinct(Keys(Insert(x, s, le)))
    decreases |s|
  {
    if |s| > 0 && !le(x, s[0]) {
      assert s == [s[0]] + s[1..];
      KeysCons(s[0], s[1..]);
      InsertKeepsKeysDistinct(x, s[1..], le);
      InsertBehindDistinct(x, s[0], s[1..], Insert(x, s[1..], le));
    } else {
      DistinctCons(x, s);
    }
  }

  lemma InsertBehindDistinct<K, V>(x: (K, V), h: (K, V), t: seq<(K, V)>, rest: seq<(K, V)>)
    requires multiset(rest) == multiset{x} + multiset(t)
    requires Distinct(Keys(rest)) && h.0 != x.0 && h.0 !in Keys(t)
    ensures Distinct(Keys([h] + rest))
  {
    KeysCons(x, t);
    assert multiset([x] + t) == multiset{x} + multiset(t);
    PermutedEntries([x] + t, rest);
    DistinctCons(h, rest);
  }

  /** Sorting an array whose keys are distinct leaves them distinct. */
  lemma {:induction false} SortByKeepsKeysDistinct<K, V>(s: seq<(K, V)>, le: ((K, V), (K, V)) -> bool)
    requires Distinct(Keys(s))
    ensures Distinct(Keys(SortBy(s, le)))
    decreases |s|
  {
    if |s| > 0 {
      var rest := SortBy(s[1..], le);
      assert Keys(s) == [s[0].0] + Keys(s[1..]);
      SortByKeepsKeysDistinct(s[1..], le);
      forall e | e in rest
        ensures e.0 != s[0].0
      {
        assert e in multiset(rest);
        assert e in s[1..];
        var i :| 0 <= i < |s[1..]| && s[1..][i] == e;
        assert Keys(s)[i + 1] == e.0;
      }
      InsertKeepsKeysDistinct(s[0], rest, le);
    }
  }

  /** Sorting does not change the total of the counts. */
  lemma {:induction false} InsertSum<K>(x: (K, nat), s: seq<(K, nat)>, le: ((K, nat), (K, nat)) -> bool)
    ensures SumValues(Insert(x, s, le)) == x.1 + SumValues(s)
    decreases |s|
  {
    if |s| > 0 && !le(x, s[0]) {
      InsertSum(x, s[1..], le);
      var r := Insert(x, s, le);
      assert r[1..] == Insert(x, s[1..], le);
    } else {
      assert ([x] + s)[1..] == s;
    }
  }

  lemma {:induction false} SortBySum<K>(s: seq<(K, nat)>, le: ((K, nat), (K, nat)) -> bool)
    ensures SumValues(SortBy(s, le)) == SumValues(s)
    decreases |s|
  {
    if |s| > 0 {
      SortBySum(s[1..], le);
      InsertSum(s[0], SortBy(s[1..], le), le);
    }
  }

  /** A permutation of an association list has the same keys, and each of
      its entries is an entry of the original. */
  lemma PermutedEntries<K, V>(a: seq<(K, V)>, b: seq<(K, V)>)
    requires multiset(a) == multiset(b)
    ensures forall i :: 0 <= i < |b| ==> b[i] in a
    ensures forall k :: k in Keys(a) <==> k in Keys(b)
  {
    forall i | 0 <= i < |b|
      ensures b[i] in a
    {
      assert b[i] in multiset(b);
    }
    forall k | k in Keys(a)
      ensures k in Keys(b)
    {
      var i :| 0 <= i < |a| && Keys(a)[i] == k;
      assert a[i] in multiset(b);
      var j :| 0 <= j < |b| && b[j] == a[i];
      assert Keys(b)[j] == k;
    }
    forall k | k in Keys(b)
      ensures k in Keys(a)
    {
      var j :| 0 <= j < |b| && Keys(b)[j] == k;
      assert b[j] in multiset(a);
      var i :| 0 <= i < |a| && a[i] == b[j];
      assert Keys(a)[i] == k;
    }
  }
}
