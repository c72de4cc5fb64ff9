/** PHP `explode` on a one-character delimiter, with `implode` as its inverse. */
module Explode {

  /** `explode(d, s)`: the pieces of `s` between occurrences of `d`. Like PHP,
      the result is never empty (`explode('_', '')` is `['']`). */
  function Split(s: string, d: char): (parts: seq<string>)
    decreases |s|
    ensures |parts| >= 1
    ensures forall i :: 0 <= i < |parts| ==> d !in parts[i]
  {
    if |s| == 0 then [""]
    else
      var rest := Split(s[1..], d);
      if s[0] == d then [""] + rest
      else [[s[0]] + rest[0]] + rest[1..]
  }

  /** `implode(d, parts)`. */
  function Join(parts: seq<string>, d: char): string
    decreases |parts|
  {
    if |parts| == 0 then ""
    else if |parts| == 1 then parts[0]
    else parts[0] + [d] + Join(parts[1..], d)
  }

  lemma JoinConsHead(c: char, head: string, tail: seq<string>, d: char)
    ensures Join([[c] + head] + tail, d) == [c] + Join([head] + tail, d)
  {
    var ps := [[c] + head] + tail;
    var qs := [head] + tail;
    assert ps[1..] == tail && qs[1..] == tail;
    if |tail| > 0 {
      assert Join(ps, d) == ([c] + head) + [d] + Join(tail, d);
      assert Join(qs, d) == head + [d] + Join(tail, d);
    }
  }

  /** Joining the pieces back with the delimiter gives the original string. */
  lemma {:induction false} JoinSplit(s: string, d: char)
    ensures Join(Split(s, d), d) == s
    decreases |s|
  {
    if |s| > 0 {
      var rest := Split(s[1..], d);
      JoinSplit(s[1..], d);
      if s[0] == d {
        assert ([""] + rest)[1..] == rest;
        assert Join([""] + rest, d) == "" + [d] + Join(rest, d);
        assert s == [s[0]] + s[1..];
      } else {
        assert rest == [rest[0]] + rest[1..];
        JoinConsHead(s[0], rest[0], rest[1..], d);
        assert s == [s[0]] + s[1..];
      }
    }
  }

  /** A string without the delimiter is a single piece. */
  lemma {:induction false} SplitNoDelimiter(x: string, d: char)
    requires d !in x
    ensures Split(x, d) == [x]
    decreases |x|
  {
    if |x| > 0 {
      SplitNoDelimiter(x[1..], d);
      assert [x[0]] + x[1..] == x;
    }
  }

  /** The first piece of `x + [d] + y` is `x` when `x` has no delimiter. */
  lemma {:induction false} SplitAtDelimiter(x: string, y: string, d: char)
    requires d !in x
    ensures Split(x + [d] + y, d) == [x] + Split(y, d)
    decreases |x|
  {
    var s := x + [d] + y;
    if |x| == 0 {
      assert s[1..] == y;
    } else {
      assert s[1..] == x[1..] + [d] + y;
      SplitAtDelimiter(x[1..], y, d);
      assert [x[0]] + x[1..] == x;
    }
  }

  /** Splitting a join of delimiter-free pieces gives the pieces back. */
  lemma {:induction false} SplitJoin(parts: seq<string>, d: char)
    requires |parts| >= 1
    requires forall i :: 0 <= i < |parts| ==> d !in parts[i]
    ensures Split(Join(parts, d), d) == parts
    decreases |parts|
  {
    if |parts| == 1 {
      SplitNoDelimiter(parts[0], d);
    } else {
      SplitJoin(parts[1..], d);
      SplitAtDelimiter(parts[0], Join(parts[1..], d), d);
      assert [parts[0]] + parts[1..] == parts;
    }
  }
}
