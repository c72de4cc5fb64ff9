/** The string primitives the PHP code relies on: `strpos`, `strtoupper`,
    three-argument `strtr`, `trim` with a character list, and the byte-wise
    ordering `ksort` applies to non-numeric string keys, which also stands in
    for `ORDER BY` under a binary collation. Strings are taken to be sequences of
    single-byte characters, which PHP's byte strings are only for ASCII
    text. The PHP version assumed is 8.2 or later. */
module Strings {
  import opened Optional

  predicate IsPrefix(needle: string, haystack: string)
  {
    |needle| <= |haystack| && haystack[..|needle|] == needle
  }

  /** `needle` occurs in `haystack` starting at position `i`. */
  predicate OccursAt(needle: string, haystack: string, i: nat)
  {
    i + |needle| <= |haystack| && haystack[i..i + |needle|] == needle
  }

  /** Leftmost position at or after `from` where `needle` occurs. */
  function FindFrom(haystack: string, needle: string, from: nat): (r: Option<nat>)
    decreases |haystack| - from
    ensures r.Some? ==> from <= r.value && OccursAt(needle, haystack, r.value)
    ensures r.Some? ==> forall j :: from <= j < r.value ==> !OccursAt(needle, haystack, j)
    ensures r.None? ==> forall j :: from <= j ==> !OccursAt(needle, haystack, j)
  {
    if from + |needle| > |haystack| then None
    else if haystack[from..from + |needle|] == needle then Some(from)
    else FindFrom(haystack, needle, from + 1)
  }

  /** PHP `strpos($haystack, $needle)`: None stands for `false`. */
  function Strpos(haystack: string, needle: string): Option<nat>
  {
    FindFrom(haystack, needle, 0)
  }

  /** `strpos($haystack, $needle) === 0` holds exactly when `needle` is a
      prefix of `haystack` (the empty needle included, as from PHP 8.0). */
  function StartsWith(haystack: string, needle: string): (r: bool)
    ensures r <==> IsPrefix(needle, haystack)
  {
    Strpos(haystack, needle) == Some(0)
  }

  function UpperChar(c: char): char
  {
    if 'a' <= c <= 'z' then (c as int - 32) as char else c
  }

  /** `strtoupper` as of PHP 8.2, which no longer depends on the locale:
      ASCII letters only, every other byte unchanged. */
  function ToUpper(s: string): (r: string)
    ensures |r| == |s|
    ensures forall i :: 0 <= i < |s| ==> r[i] == UpperChar(s[i])
  {
    if |s| == 0 then "" else [UpperChar(s[0])] + ToUpper(s[1..])
  }

  /** The character `c` is mapped to by `strtr($s, from, to)`: the table pairs
      `from[i]` with `to[i]` for `i` below the shorter length, a later pair
      overriding an earlier one for the same character. */
  function TranslateChar(c: char, from: string, to: string): char
    decreases |from|
  {
    var n := if |from| <= |to| then |from| else |to|;
    if n == 0 then c
    else if from[n - 1] == c then to[n - 1]
    else TranslateChar(c, from[..n - 1], to[..n - 1])
  }

  /** PHP three-argument `strtr`: character-by-character substitution. */
  function Translate(s: string, from: string, to: string): (r: string)
    ensures |r| == |s|
    ensures forall i :: 0 <= i < |s| ==> r[i] == TranslateChar(s[i], from, to)
  {
    if |s| == 0 then "" else [TranslateChar(s[0], from, to)] + Translate(s[1..], from, to)
  }

  /** PHP `ltrim($s, c)` for a single character `c`. */
  function TrimLeft(s: string, c: char): (r: string)
    ensures |r| <= |s| && r == s[|s| - |r|..]
    ensures forall k :: 0 <= k < |s| - |r| ==> s[k] == c
    ensures r == [] || r[0] != c
  {
    if |s| > 0 && s[0] == c then TrimLeft(s[1..], c) else s
  }

  /** PHP `rtrim($s, c)` for a single character `c`. */
  function TrimRight(s: string, c: char): (r: string)
    ensures |r| <= |s| && r == s[..|r|]
    ensures forall k :: |r| <= k < |s| ==> s[k] == c
    ensures r == [] || r[|r| - 1] != c
  {
    if |s| > 0 && s[|s| - 1] == c then TrimRight(s[..|s| - 1], c) else s
  }

  /** PHP `trim($s, c)` for a single character `c`. */
  function Trim(s: string, c: char): (r: string)
    ensures r == [] || (r[0] != c && r[|r| - 1] != c)
  {
    TrimRight(TrimLeft(s, c), c)
  }

  /** All characters of `s` are `c`. */
  predicate AllAre(s: string, c: char)
  {
    forall k :: 0 <= k < |s| ==> s[k] == c
  }

  lemma {:induction false} TrimLeftPadded(pad: string, x: string, c: char)
    requires AllAre(pad, c)
    requires x == [] || x[0] != c
    ensures TrimLeft(pad + x, c) == x
    decreases |pad|
  {
    if |pad| == 0 {
      assert pad + x == x;
    } else {
      assert (pad + x)[1..] == pad[1..] + x;
      TrimLeftPadded(pad[1..], x, c);
    }
  }

  lemma {:induction false} TrimRightPadded(x: string, pad: string, c: char)
    requires AllAre(pad, c)
    requires x == [] || x[|x| - 1] != c
    ensures TrimRight(x + pad, c) == x
    decreases |pad|
  {
    if |pad| == 0 {
      assert x + pad == x;
    } else {
      assert (x + pad)[..|x + pad| - 1] == x + pad[..|pad| - 1];
      TrimRightPadded(x, pad[..|pad| - 1], c);
    }
  }

  /** Trimming undoes any padding with `c` around a text that neither starts
      nor ends with `c`: what `trim` returns is determined by that property. */
  lemma TrimPadded(left: string, x: string, right: string, c: char)
    requires AllAre(left, c) && AllAre(right, c)
    requires x == [] || (x[0] != c && x[|x| - 1] != c)
    ensures Trim(left + x + right, c) == x
  {
    if x == [] {
      assert left + x + right == left + right;
      TrimLeftPadded(left + right, [], c);
      assert left + right + [] == left + right;
    } else {
      assert left + x + right == left + (x + right);
      TrimLeftPadded(left, x + right, c);
      TrimRightPadded(x, right, c);
    }
  }

  /** Byte-wise lexicographic order: `a` sorts before or equal to `b`. */
  predicate LexLe(a: string, b: string)
    decreases |a|
  {
    |a| == 0 || (|b| > 0 && (a[0] < b[0] || (a[0] == b[0] && LexLe(a[1..], b[1..]))))
  }

  lemma {:induction false} LexLeTotal(a: string, b: string)
    ensures LexLe(a, b) || LexLe(b, a)
    decreases |a|
  {
    if |a| > 0 && |b| > 0 && a[0] == b[0] {
      LexLeTotal(a[1..], b[1..]);
    }
  }

  lemma {:induction false} LexLeTransitive(a: string, b: string, c: string)
    requires LexLe(a, b) && LexLe(b, c)
    ensures LexLe(a, c)
    decreases |a|
  {
    if |a| > 0 && a[0] == b[0] && b[0] == c[0] {
      LexLeTransitive(a[1..], b[1..], c[1..]);
    }
  }
}
