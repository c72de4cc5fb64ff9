/** The activity repository's queries over the stored activities, which are
    given as a sequence in storage order. */
module ActivityRepository {
  import opened Optional
  import opened Seqs
  import opened Assoc
  import opened Sorting
  import opened Tallies
  import opened Strings
  import opened Entities

  /** The default ordering: newest first. */
  const NewestFirst: (Activity, Activity) -> bool :=
    (a: Activity, b: Activity) => a.dateCreated >= b.dateCreated

  /** `findAll()`: every stored activity, ordered by dateCreated descending. */
  function FindAll(stored: seq<Activity>): (r: seq<Activity>)
    ensures multiset(r) == multiset(stored)
    ensures forall i, j :: 0 <= i < j < |r| ==> r[i].dateCreated >= r[j].dateCreated
  {
    SortBySorted(stored, NewestFirst);
    SortBy(stored, NewestFirst)
  }

  /** The cacheInfo column, record by record. */
  function CacheInfos(log: seq<Activity>): (r: seq<Option<string>>)
    ensures |r| == |log|
    ensures forall i :: 0 <= i < |log| ==> r[i] == log[i].cacheInfo
  {
    seq(|log|, i requires 0 <= i < |log| => log[i].cacheInfo)
  }

  /** The (cacheInfo, uri) columns, record by record. */
  function CacheInfoAndUris(log: seq<Activity>): (r: seq<(Option<string>, string)>)
    ensures |r| == |log|
    ensures forall i :: 0 <= i < |log| ==> r[i] == (log[i].cacheInfo, log[i].uri)
  {
    seq(|log|, i requires 0 <= i < |log| => (log[i].cacheInfo, log[i].uri))
  }

  /** SQL `COUNT(e.cacheInfo)` ignores nulls: the null group counts 0. */
  function ZeroNullGroup(rows: seq<(Option<string>, nat)>): (r: seq<(Option<string>, nat)>)
    ensures Keys(r) == Keys(rows)
    ensures forall i :: 0 <= i < |rows| ==> r[i].1 == (if rows[i].0.None? then 0 else rows[i].1)
  {
    if |rows| == 0 then []
    else
      var rest := ZeroNullGroup(rows[1..]);
      var r := [(rows[0].0, if rows[0].0.None? then 0 else rows[0].1)] + rest;
      assert r[1..] == rest;
      r
  }

  lemma {:induction false} ZeroNullGroupSum(rows: seq<(Option<string>, nat)>)
    requires Distinct(Keys(rows))
    ensures SumValues(ZeroNullGroup(rows)) + Lookup(rows, None).GetOr(0) == SumValues(rows)
    decreases |rows|
  {
    if |rows| > 0 {
      var r := ZeroNullGroup(rows);
      var tail := rows[1..];
      assert r[1..] == ZeroNullGroup(tail);
      assert Keys(rows) == [rows[0].0] + Keys(tail);
      assert Distinct(Keys(tail));
      ZeroNullGroupSum(tail);
      assert SumValues(r) == r[0].1 + SumValues(ZeroNullGroup(tail));
      assert SumValues(rows) == rows[0].1 + SumValues(tail);
      if rows[0].0.None? {
        assert None !in Keys(tail);
        assert Lookup(tail, None).GetOr(0) == 0;
      } else {
        assert Lookup(rows, None) == Lookup(tail, None);
      }
    }
  }

  /** `groupByCacheInfo()`: one row per distinct cacheInfo value (null
      included), counting the records that carry it, most frequent first. */
  function GroupByCacheInfo(log: seq<Activity>): (rows: seq<(Option<string>, nat)>)
    ensures Distinct(Keys(rows))
    ensures forall c :: c in Keys(rows) <==> c in CacheInfos(log)
    ensures forall i :: 0 <= i < |rows| && rows[i].0.Some? ==> rows[i].1 == Occurrences(CacheInfos(log), rows[i].0)
    ensures forall i :: 0 <= i < |rows| && rows[i].0.None? ==> rows[i].1 == 0
    ensures forall i, j :: 0 <= i < j < |rows| ==> rows[i].1 >= rows[j].1
    ensures SumValues(rows) == |log| - Occurrences(CacheInfos(log), None)
  {
    var tally := Tally(CacheInfos(log));
    var zeroed := ZeroNullGroup(tally);
    var rows := SortBy(zeroed, ByCountDescending<Option<string>>);
    ZeroNullGroupSum(tally);
    SortBySorted(zeroed, ByCountDescending<Option<string>>);
    SortBySum(zeroed, ByCountDescending<Option<string>>);
    SortByKeepsKeysDistinct(zeroed, ByCountDescending<Option<string>>);
    NullGroupCount(log, tally);
    GroupRowsSound(log, tally, rows);
    GroupRowsComplete(log, tally, rows);
    rows
  }

  /** Each entry of the zeroed tally is a group of the log with its count. */
  lemma ZeroedEntries(log: seq<Activity>, tally: seq<(Option<string>, nat)>, i: nat)
    requires IsTallyOf(tally, CacheInfos(log))
    requires i < |tally|
    ensures ZeroNullGroup(tally)[i].0 in CacheInfos(log)
    ensures ZeroNullGroup(tally)[i].1 == (if tally[i].0.None? then 0 else Occurrences(CacheInfos(log), tally[i].0))
  {
    assert Keys(ZeroNullGroup(tally))[i] == tally[i].0;
    assert Keys(tally)[i] == tally[i].0;
  }

  lemma NullGroupCount(log: seq<Activity>, tally: seq<(Option<string>, nat)>)
    requires IsTallyOf(tally, CacheInfos(log))
    ensures Lookup(tally, None).GetOr(0) == Occurrences(CacheInfos(log), None)
  {
    if None in CacheInfos(log) {
      var i :| 0 <= i < |tally| && Keys(tally)[i] == None;
      assert tally[i].0 == None;
    }
  }

  /** Every row of the sorted groups is a group of the log with its count. */
  lemma GroupRowsSound(log: seq<Activity>, tally: seq<(Option<string>, nat)>, rows: seq<(Option<string>, nat)>)
    requires IsTallyOf(tally, CacheInfos(log))
    requires multiset(rows) == multiset(ZeroNullGroup(tally))
    ensures forall i :: 0 <= i < |rows| ==> rows[i].0 in CacheInfos(log)
    ensures forall i :: 0 <= i < |rows| ==> rows[i].1 == (if rows[i].0.None? then 0 else Occurrences(CacheInfos(log), rows[i].0))
  {
    var zeroed := ZeroNullGroup(tally);
    forall i | 0 <= i < |rows|
      ensures rows[i].0 in CacheInfos(log)
      ensures rows[i].1 == (if rows[i].0.None? then 0 else Occurrences(CacheInfos(log), rows[i].0))
    {
      assert rows[i] in multiset(zeroed);
      var k :| 0 <= k < |zeroed| && zeroed[k] == rows[i];
      ZeroedEntries(log, tally, k);
    }
  }

  /** Every cacheInfo value of the log has a row. */
  lemma GroupRowsComplete(log: seq<Activity>, tally: seq<(Option<string>, nat)>, rows: seq<(Option<string>, nat)>)
    requires IsTallyOf(tally, CacheInfos(log))
    requires multiset(rows) == multiset(ZeroNullGroup(tally))
    ensures forall c :: c in CacheInfos(log) ==> c in Keys(rows)
  {
    var zeroed := ZeroNullGroup(tally);
    forall c | c in CacheInfos(log)
      ensures c in Keys(rows)
    {
      var k :| 0 <= k < |tally| && Keys(tally)[k] == c;
      assert Keys(zeroed)[k] == c;
      assert zeroed[k] in multiset(rows);
      var j :| 0 <= j < |rows| && rows[j] == zeroed[k];
      assert Keys(rows)[j] == c;
    }
  }

  /** The uris of the records whose cacheInfo is `c`, in storage order
      (`WHERE e.cacheInfo = :cacheInfo`): each uri as often as there are such
      records with that uri. */
  function UrisWithCacheInfo(log: seq<Activity>, c: string): (uris: seq<string>)
    ensures forall u :: Occurrences(uris, u) == Occurrences(CacheInfoAndUris(log), (Some(c), u))
    decreases |log|
  {
    if |log| == 0 then []
    else
      var prefix := log[..|log| - 1];
      var last := log[|log| - 1];
      var rest := UrisWithCacheInfo(prefix, c);
      assert CacheInfoAndUris(log)[..|log| - 1] == CacheInfoAndUris(prefix);
      if last.cacheInfo == Some(c) then
        assert (rest + [last.uri])[..|rest|] == rest;
        rest + [last.uri]
      else rest
  }

  /** `ORDER BY count DESC, uri ASC`. */
  const MostFrequentThenUri: ((string, nat), (string, nat)) -> bool :=
    (a: (string, nat), b: (string, nat)) => a.1 > b.1 || (a.1 == b.1 && LexLe(a.0, b.0))

  lemma MostFrequentThenUriIsTotalPreorder()
    ensures Total(MostFrequentThenUri) && Transitive(MostFrequentThenUri)
  {
    forall a: (string, nat), b: (string, nat)
      ensures MostFrequentThenUri(a, b) || MostFrequentThenUri(b, a)
    {
      LexLeTotal(a.0, b.0);
    }
    forall a: (string, nat), b: (string, nat), c: (string, nat) | MostFrequentThenUri(a, b) && MostFrequentThenUri(b, c)
      ensures MostFrequentThenUri(a, c)
    {
      if a.1 == b.1 && b.1 == c.1 {
        LexLeTransitive(a.0, b.0, c.0);
      }
    }
  }

  /** `groupByUri(c)`: among the records whose cacheInfo is `c`, one row per
      distinct uri with its number of records, ordered by count descending
      and then by uri ascending. */
  function GroupByUri(log: seq<Activity>, c: string): (rows: seq<(string, nat)>)
    ensures Distinct(Keys(rows))
    ensures forall u :: u in Keys(rows) <==> (Some(c), u) in CacheInfoAndUris(log)
    ensures forall i :: 0 <= i < |rows| ==> rows[i].1 == Occurrences(CacheInfoAndUris(log), (Some(c), rows[i].0))
    ensures forall i, j :: 0 <= i < j < |rows| ==>
              rows[i].1 > rows[j].1 || (rows[i].1 == rows[j].1 && LexLe(rows[i].0, rows[j].0))
  {
    var uris := UrisWithCacheInfo(log, c);
    var tally := Tally(uris);
    SortedTally(tally, uris, MostFrequentThenUri);
    MostFrequentThenUriIsTotalPreorder();
    SortBySorted(tally, MostFrequentThenUri);
    var rows := SortBy(tally, MostFrequentThenUri);
    assert forall u :: u in uris <==> Occurrences(uris, u) > 0;
    rows
  }
}
