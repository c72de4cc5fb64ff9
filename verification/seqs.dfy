/** Small facts about sequences shared by the rest of the model. */
module Seqs {

  function Min(a: int, b: int): int
  {
    if a <= b then a else b
  }

  /** No element occurs twice (the keys of a PHP array). */
  predicate Distinct<T(==)>(s: seq<T>)
  {
    forall i, j :: 0 <= i < j < |s| ==> s[i] != s[j]
  }

  /** `sub` is obtained from `s` by dropping elements, keeping the order of the rest. */
  predicate IsSubsequence<T(==)>(sub: seq<T>, s: seq<T>)
    decreases |s|
  {
    if |sub| == 0 then true
    else if |s| == 0 then false
    else if sub[0] == s[0] then IsSubsequence(sub[1..], s[1..])
    else IsSubsequence(sub, s[1..])
  }

  /** Number of occurrences of `x` in `s`, counted from the back so that it
      follows a left-to-right scan one element at a time. */
  function Occurrences<T(==)>(s: seq<T>, x: T): (n: nat)
    ensures n <= |s|
    ensures n > 0 <==> x in s
  {
    if |s| == 0 then 0
    else Occurrences(s[..|s| - 1], x) + (if s[|s| - 1] == x then 1 else 0)
  }

  /** Counting from the front: the head's contribution plus the tail's. */
  lemma {:induction false} OccurrencesCons<T>(h: T, t: seq<T>, x: T)
    ensures Occurrences([h] + t, x) == (if h == x then 1 else 0) + Occurrences(t, x)
    decreases |t|
  {
    if |t| > 0 {
      var s := [h] + t;
      assert s[..|s| - 1] == [h] + t[..|t| - 1];
      assert s[|s| - 1] == t[|t| - 1];
      OccurrencesCons(h, t[..|t| - 1], x);
    } else {
      assert [h] + t == [h];
      assert [h][..0] == [];
    }
  }
}
