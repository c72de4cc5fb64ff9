/** Frequency tallies built the way the PHP loops build them: scan left to
    right, add 1 to an existing key or append the key with count 1. */
module Tallies {
  import opened Seqs
  import opened Assoc
  import opened Sorting

  /** Adds one occurrence of `k` to a tally. */
  function Bump<K(==)>(rows: seq<(K, nat)>, k: K): (r: seq<(K, nat)>)
    requires Distinct(Keys(rows))
    ensures |r| == if k in Keys(rows) then |rows| else |rows| + 1
    ensures forall i :: 0 <= i < |rows| ==> r[i] == (rows[i].0, rows[i].1 + if rows[i].0 == k then 1 else 0)
    ensures k !in Keys(rows) ==> r[|rows|] == (k, 1)
    decreases |rows|
  {
    if |rows| == 0 then [(k, 1)]
    else
      assert Keys(rows) == [rows[0].0] + Keys(rows[1..]);
      if rows[0].0 == k then
        [(k, rows[0].1 + 1)] + rows[1..]
      else
        [rows[0]] + Bump(rows[1..], k)
  }

  /** Bumping keeps the keys and appends `k` when it is new. */
  lemma BumpKeys<K>(rows: seq<(K, nat)>, k: K)
    requires Distinct(Keys(rows))
    ensures Keys(Bump(rows, k)) == if k in Keys(rows) then Keys(rows) else Keys(rows) + [k]
  {
  }

  /** Bumping keeps the keys distinct. */
  lemma BumpDistinct<K>(rows: seq<(K, nat)>, k: K)
    requires Distinct(Keys(rows))
    ensures Distinct(Keys(Bump(rows, k)))
  {
    BumpKeys(rows, k);
  }

  /** Bumping adds exactly one to the total. */
  lemma {:induction false} BumpSum<K>(rows: seq<(K, nat)>, k: K)
    requires Distinct(Keys(rows))
    ensures SumValues(Bump(rows, k)) == SumValues(rows) + 1
    decreases |rows|
  {
    if |rows| > 0 {
      assert Keys(rows) == [rows[0].0] + Keys(rows[1..]);
      if rows[0].0 != k {
        BumpSum(rows[1..], k);
        assert Bump(rows, k)[1..] == Bump(rows[1..], k);
      } else {
        assert Bump(rows, k)[1..] == rows[1..];
      }
    }
  }

  /** `rows` is a tally of `xs`: its keys are distinct and are exactly the
      elements of `xs`, each key's count is its number of occurrences, and so
      the counts add up to the length of `xs`. */
  ghost predicate IsTallyOf<K(!new)>(rows: seq<(K, nat)>, xs: seq<K>)
  {
    && Distinct(Keys(rows))
    && (forall k :: k in Keys(rows) <==> k in xs)
    && (forall i :: 0 <= i < |rows| ==> rows[i].1 == Occurrences(xs, rows[i].0))
    && SumValues(rows) == |xs|
  }

  lemma TallyStep<K(!new)>(before: seq<(K, nat)>, xs: seq<K>)
    requires |xs| > 0 && IsTallyOf(before, xs[..|xs| - 1])
    ensures IsTallyOf(Bump(before, xs[|xs| - 1]), xs)
  {
    var x := xs[|xs| - 1];
    BumpDistinct(before, x);
    BumpSum(before, x);
    StepKeys(before, xs);
    StepCounts(before, xs);
  }

  lemma StepKeys<K(!new)>(before: seq<(K, nat)>, xs: seq<K>)
    requires |xs| > 0 && Distinct(Keys(before))
    requires forall k :: k in Keys(before) <==> k in xs[..|xs| - 1]
    ensures forall k :: k in Keys(Bump(before, xs[|xs| - 1])) <==> k in xs
  {
    var prefix := xs[..|xs| - 1];
    var x := xs[|xs| - 1];
    BumpKeys(before, x);
    assert xs == prefix + [x];
  }

  lemma StepCounts<K(!new)>(before: seq<(K, nat)>, xs: seq<K>)
    requires |xs| > 0 && Distinct(Keys(before))
    requires forall k :: k in Keys(before) <==> k in xs[..|xs| - 1]
    requires forall i :: 0 <= i < |before| ==> before[i].1 == Occurrences(xs[..|xs| - 1], before[i].0)
    ensures var r := Bump(before, xs[|xs| - 1]);
      forall i :: 0 <= i < |r| ==> r[i].1 == Occurrences(xs, r[i].0)
  {
    var prefix := xs[..|xs| - 1];
    var x := xs[|xs| - 1];
    var r := Bump(before, x);
    forall i | 0 <= i < |r|
      ensures r[i].1 == Occurrences(xs, r[i].0)
    {
      if i < |before| {
        assert r[i].0 == before[i].0;
      } else {
        assert r[i] == (x, 1);
        assert x !in Keys(before);
        assert Occurrences(prefix, x) == 0;
      }
    }
  }

  /** The tally of `xs`: one entry per distinct element, in order of first
      occurrence, holding the number of times that element occurs. */
  function Tally<K(==,!new)>(xs: seq<K>): (rows: seq<(K, nat)>)
    ensures IsTallyOf(rows, xs)
    decreases |xs|
  {
    if |xs| == 0 then []
    else
      var prefix := xs[..|xs| - 1];
      var x := xs[|xs| - 1];
      var before := Tally(prefix);
      TallyStep(before, xs);
      Bump(before, x)
  }

  lemma PermutedTallySound<K(!new)>(rows: seq<(K, nat)>, xs: seq<K>, r: seq<(K, nat)>)
    requires IsTallyOf(rows, xs)
    requires multiset(r) == multiset(rows)
    ensures forall i :: 0 <= i < |r| ==> r[i].1 == Occurrences(xs, r[i].0) && r[i].0 in xs
  {
    forall i | 0 <= i < |r|
      ensures r[i].1 == Occurrences(xs, r[i].0) && r[i].0 in xs
    {
      assert r[i] in multiset(rows);
      var k :| 0 <= k < |rows| && rows[k] == r[i];
      assert Keys(rows)[k] == rows[k].0;
    }
  }

  lemma PermutedTallyComplete<K(!new)>(rows: seq<(K, nat)>, xs: seq<K>, r: seq<(K, nat)>)
    requires IsTallyOf(rows, xs)
    requires multiset(r) == multiset(rows)
    ensures forall x :: x in xs ==> x in Keys(r)
  {
    forall x | x in xs
      ensures x in Keys(r)
    {
      var k :| 0 <= k < |rows| && Keys(rows)[k] == x;
      assert rows[k] in multiset(r);
      var j :| 0 <= j < |r| && r[j] == rows[k];
      assert Keys(r)[j] == x;
    }
  }

  /** Reordering a tally with SortBy leaves it a tally of the same sequence. */
  lemma SortedTally<K(!new)>(rows: seq<(K, nat)>, xs: seq<K>, le: ((K, nat), (K, nat)) -> bool)
    requires IsTallyOf(rows, xs)
    ensures IsTallyOf(SortBy(rows, le), xs)
  {
    var r := SortBy(rows, le);
    SortByKeepsKeysDistinct(rows, le);
    SortBySum(rows, le);
    PermutedTallySound(rows, xs, r);
    PermutedTallyComplete(rows, xs, r);
  }
}
