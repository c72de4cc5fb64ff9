/** The reporting commands of the command controller, over the records as
    `findAll()` returns them. Console rendering (tables, markup, prompts) is
    not modelled; each command is reduced to the data it displays. */
module Reports {
  import opened Optional
  import opened Seqs
  import opened Strings
  import opened Explode
  import opened Assoc
  import opened Sorting
  import opened Tallies
  import opened Entities
  import opened ActivityRepository
  import LoggingAspect

  datatype ParamKind = CookieParams | QueryParams

  function DisallowedParams(a: Activity, kind: ParamKind): seq<string>
  {
    match kind
    case CookieParams => a.disallowedCookieParams
    case QueryParams => a.disallowedQueryParams
  }

  /** Every disallowed name of one kind, record after record. */
  function AllDisallowed(log: seq<Activity>, kind: ParamKind): (names: seq<string>)
    ensures forall i, x :: 0 <= i < |log| && x in DisallowedParams(log[i], kind) ==> x in names
    ensures forall x :: x in names ==> exists i :: 0 <= i < |log| && x in DisallowedParams(log[i], kind)
    decreases |log|
  {
    if |log| == 0 then []
    else
      var prefix := log[..|log| - 1];
      var rest := AllDisallowed(prefix, kind);
      assert forall i :: 0 <= i < |prefix| ==> log[i] == prefix[i];
      rest + DisallowedParams(log[|log| - 1], kind)
  }

  /** `info`: the tally of one kind of disallowed names, sorted by count,
      most frequent first. */
  function Ranking(log: seq<Activity>, kind: ParamKind): (rows: seq<(string, nat)>)
    ensures IsTallyOf(rows, AllDisallowed(log, kind))
    ensures forall i, j :: 0 <= i < j < |rows| ==> rows[i].1 >= rows[j].1
  {
    var tally := Tally(AllDisallowed(log, kind));
    SortedTally(tally, AllDisallowed(log, kind), ByCountDescending<string>);
    SortBySorted(tally, ByCountDescending<string>);
    SortBy(tally, ByCountDescending<string>)
  }

  /** The number of rows `info` shows without `--verbose`. */
  const TopCount: nat := 10

  /** The rows shown of a ranking: all of them when verbose, otherwise the
      first ten. */
  function Top(ranking: seq<(string, nat)>, verbose: bool): (rows: seq<(string, nat)>)
    ensures verbose ==> rows == ranking
    ensures !verbose ==> |rows| == Min(TopCount, |ranking|)
    ensures rows == ranking[..|rows|]
  {
    if verbose then ranking else ranking[..Min(TopCount, |ranking|)]
  }

  /** The table `info` prints for one kind. */
  function InfoTable(log: seq<Activity>, kind: ParamKind, verbose: bool): seq<(string, nat)>
  {
    Top(Ranking(log, kind), verbose)
  }

  /** Without `--verbose`, no name left out of the `info` table was seen
      more often than a name shown in it. */
  lemma InfoTableShowsMostFrequent(log: seq<Activity>, kind: ParamKind, verbose: bool)
    ensures var ranking := Ranking(log, kind);
      var rows := InfoTable(log, kind, verbose);
      forall i, j :: 0 <= i < |rows| <= j < |ranking| ==> ranking[j].1 <= rows[i].1
  {
    var ranking := Ranking(log, kind);
    var rows := InfoTable(log, kind, verbose);
    forall i, j | 0 <= i < |rows| <= j < |ranking|
      ensures ranking[j].1 <= rows[i].1
    {
      assert rows[i] == ranking[i];
    }
  }

  /** Whether record `a` lists exactly `term` among its names of `kind`. */
  predicate Lists(a: Activity, term: string, kind: ParamKind)
  {
    term in DisallowedParams(a, kind)
  }

  /** How many records list `term`. */
  function MatchCount(log: seq<Activity>, term: string, kind: ParamKind): (n: nat)
    ensures n <= |log|
    ensures n == 0 <==> forall i :: 0 <= i < |log| ==> !Lists(log[i], term, kind)
  {
    if |log| == 0 then 0
    else
      var rest := MatchCount(log[1..], term, kind);
      assert forall i :: 1 <= i < |log| ==> log[i] == log[1..][i - 1];
      (if Lists(log[0], term, kind) then 1 else 0) + rest
  }

  /** `search`: the uri of every record that lists exactly `term`, in
      record order, one entry per such record. */
  function SearchUris(log: seq<Activity>, term: string, kind: ParamKind): (uris: seq<string>)
    ensures |uris| == MatchCount(log, term, kind)
    ensures forall i :: 0 <= i < |log| && Lists(log[i], term, kind) ==> log[i].uri in uris
    ensures forall u :: u in uris ==> exists i :: 0 <= i < |log| && Lists(log[i], term, kind) && log[i].uri == u
    decreases |log|
  {
    if |log| == 0 then []
    else
      var rest := SearchUris(log[1..], term, kind);
      var uris := if Lists(log[0], term, kind) then [log[0].uri] + rest else rest;
      SearchStep(log, term, kind, rest, uris);
      uris
  }

  /** How many records list `term` and have uri `u`. */
  function ListingsWithUri(log: seq<Activity>, term: string, kind: ParamKind, u: string): (n: nat)
    ensures n <= MatchCount(log, term, kind)
  {
    if |log| == 0 then 0
    else (if Lists(log[0], term, kind) && log[0].uri == u then 1 else 0) + ListingsWithUri(log[1..], term, kind, u)
  }

  /** `search` lists each uri once per record that lists the term and has
      that uri. */
  lemma {:induction false} SearchUrisCounts(log: seq<Activity>, term: string, kind: ParamKind, u: string)
    ensures Occurrences(SearchUris(log, term, kind), u) == ListingsWithUri(log, term, kind, u)
    decreases |log|
  {
    if |log| > 0 {
      var rest := SearchUris(log[1..], term, kind);
      SearchUrisCounts(log[1..], term, kind, u);
      if Lists(log[0], term, kind) {
        OccurrencesCons(log[0].uri, rest, u);
      }
    }
  }

  lemma SearchStep(log: seq<Activity>, term: string, kind: ParamKind, rest: seq<string>, uris: seq<string>)
    requires |log| > 0
    requires forall i :: 0 <= i < |log| - 1 && Lists(log[1..][i], term, kind) ==> log[1..][i].uri in rest
    requires forall u :: u in rest ==> exists i :: 0 <= i < |log| - 1 && Lists(log[1..][i], term, kind) && log[1..][i].uri == u
    requires uris == if Lists(log[0], term, kind) then [log[0].uri] + rest else rest
    ensures forall i :: 0 <= i < |log| && Lists(log[i], term, kind) ==> log[i].uri in uris
    ensures forall u :: u in uris ==> exists i :: 0 <= i < |log| && Lists(log[i], term, kind) && log[i].uri == u
  {
    forall i | 1 <= i < |log| && Lists(log[i], term, kind)
      ensures log[i].uri in uris
    {
      assert log[1..][i - 1] == log[i];
    }
    forall u | u in uris
      ensures exists i :: 0 <= i < |log| && Lists(log[i], term, kind) && log[i].uri == u
    {
      if u in rest {
        var i :| 0 <= i < |log| - 1 && Lists(log[1..][i], term, kind) && log[1..][i].uri == u;
        assert log[i + 1] == log[1..][i];
      } else {
        assert Lists(log[0], term, kind) && log[0].uri == u;
      }
    }
  }

  const MaximumChars: nat := 120
  const CropMarker: string := "[...]"

  /** `uris`: a uri longer than 120 characters is cut to its first 120 and
      marked with "[...]". */
  function CropUri(uri: string): (r: string)
    ensures |r| <= MaximumChars + |CropMarker|
    ensures |uri| <= MaximumChars ==> r == uri
    ensures |r| >= Min(|uri|, MaximumChars)
    ensures r[..Min(|uri|, MaximumChars)] == uri[..Min(|uri|, MaximumChars)]
    ensures |uri| > MaximumChars ==> |r| == MaximumChars + |CropMarker| && r[MaximumChars..] == CropMarker
  {
    var cropped := uri[..Min(|uri|, MaximumChars)];
    if |uri| > MaximumChars then cropped + CropMarker else cropped
  }

  /** The label `uris` offers for a cacheInfo group, "SKIP (12)". */
  function CacheInfoChoice(cacheInfo: string, count: string): string
  {
    cacheInfo + " (" + count + ")"
  }

  /** `explode(' ', $choice)[0]`. */
  function FirstWord(choice: string): (w: string)
    ensures ' ' !in w
    ensures IsPrefix(w, choice)
  {
    var parts := Split(choice, ' ');
    JoinSplit(choice, ' ');
    assert |parts| == 1 || Join(parts, ' ') == parts[0] + [' '] + Join(parts[1..], ' ');
    assert |parts| == 1 ==> Join(parts, ' ') == parts[0];
    parts[0]
  }

  /** The selected label gives back the cacheInfo it was made from. */
  lemma CacheInfoChoiceRoundTrip(cacheInfo: string, count: string)
    requires ' ' !in cacheInfo
    ensures FirstWord(CacheInfoChoice(cacheInfo, count)) == cacheInfo
  {
    var rest := "(" + count + ")";
    assert CacheInfoChoice(cacheInfo, count) == cacheInfo + [' '] + rest;
    SplitAtDelimiter(cacheInfo, rest, ' ');
  }

  /** The uri rows `uris` shows: each uri cropped, each count kept. */
  function CropRows(groups: seq<(string, nat)>): (rows: seq<(string, nat)>)
    ensures |rows| == |groups|
    ensures forall i :: 0 <= i < |rows| ==> rows[i] == (CropUri(groups[i].0), groups[i].1)
  {
    seq(|groups|, i requires 0 <= i < |groups| => (CropUri(groups[i].0), groups[i].1))
  }

  /** The table `uris` prints for a selected label. */
  function UrisTable(log: seq<Activity>, choice: string): seq<(string, nat)>
  {
    CropRows(GroupByUri(log, FirstWord(choice)))
  }

  /** The table shows the uri groups of the selected cacheInfo, most
      frequent first, no cell wider than 125 characters. */
  lemma UrisTableRows(log: seq<Activity>, cacheInfo: string, count: string)
    requires ' ' !in cacheInfo
    ensures var rows := UrisTable(log, CacheInfoChoice(cacheInfo, count));
      var groups := GroupByUri(log, cacheInfo);
      && |rows| == |groups|
      && (forall i :: 0 <= i < |rows| ==> rows[i].1 == groups[i].1 && |rows[i].0| <= MaximumChars + |CropMarker|)
      && (forall i :: 0 <= i < |rows| && |groups[i].0| <= MaximumChars ==> rows[i].0 == groups[i].0)
      && (forall i, j :: 0 <= i < j < |rows| ==> rows[i].1 >= rows[j].1)
  {
    CacheInfoChoiceRoundTrip(cacheInfo, count);
  }

  /** PHP truthiness of a string: "" and "0" are false. */
  predicate IsTruthy(s: string)
  {
    s != "" && s != "0"
  }

  /** The affected entries of all tags and caches of a flush event. */
  function GrandTotal(entries: seq<(string, seq<(string, nat)>)>): nat
  {
    if |entries| == 0 then 0 else SumValues(entries[0].1) + GrandTotal(entries[1..])
  }

  /** The filters `flushaudit` applies before offering an event. */
  predicate PassesTagFilter(e: FlushEvent, cacheTag: string, threshold: int)
  {
    IsTruthy(cacheTag) ==>
      Lookup(e.affectedEntries, cacheTag).Some? && SumValues(Lookup(e.affectedEntries, cacheTag).value) > threshold
  }

  /** `flushaudit`: the events offered for selection, in `findAll()` order. */
  function FlushEventChoices(events: seq<FlushEvent>, cacheTag: string, threshold: int, verbose: bool): (r: seq<FlushEvent>)
    ensures IsSubsequence(r, events)
    ensures forall e :: e in r <==> e in events && Offered(e, cacheTag, threshold, verbose)
    decreases |events|
  {
    if |events| == 0 then []
    else
      var e := events[0];
      var rest := FlushEventChoices(events[1..], cacheTag, threshold, verbose);
      if Offered(e, cacheTag, threshold, verbose) then
        assert ([e] + rest)[1..] == rest;
        [e] + rest
      else rest
  }

  /** Whether `flushaudit` offers event `e`. */
  predicate Offered(e: FlushEvent, cacheTag: string, threshold: int, verbose: bool)
  {
    PassesTagFilter(e, cacheTag, threshold) && (verbose || GrandTotal(e.affectedEntries) != 0)
  }

  /** An offered event appears as often as it was recorded, any other event
      not at all. */
  lemma {:induction false} FlushEventChoicesCounts(events: seq<FlushEvent>, cacheTag: string, threshold: int,
                                                   verbose: bool, e: FlushEvent)
    ensures Occurrences(FlushEventChoices(events, cacheTag, threshold, verbose), e) ==
              if Offered(e, cacheTag, threshold, verbose) then Occurrences(events, e) else 0
    decreases |events|
  {
    if |events| > 0 {
      var rest := FlushEventChoices(events[1..], cacheTag, threshold, verbose);
      FlushEventChoicesCounts(events[1..], cacheTag, threshold, verbose, e);
      assert events == [events[0]] + events[1..];
      OccurrencesCons(events[0], events[1..], e);
      if Offered(events[0], cacheTag, threshold, verbose) {
        OccurrencesCons(events[0], rest, e);
      }
    }
  }

  /** The selectable line of a flush event begins with its identifier in
      brackets; the rest of the line (time, totals) is abstract here. */
  function FlushEventChoice(identifier: string, details: string): string
  {
    "[" + identifier + "] " + details
  }

  /** Index of the first ']' at or after `k`, provided no line break comes
      before it (the `.` of a regular expression does not match '\n'). */
  function ClosingBracket(s: string, k: nat): (r: Option<nat>)
    decreases |s| - k
    ensures r.Some? ==> k <= r.value < |s| && s[r.value] == ']'
    ensures r.Some? ==> forall m :: k <= m < r.value ==> s[m] != ']' && s[m] != '\n'
  {
    if k >= |s| then None
    else if s[k] == ']' then Some(k)
    else if s[k] == '\n' then None
    else ClosingBracket(s, k + 1)
  }

  /** The group of the leftmost match of `#\[(.*?)\]#` starting at or after `from`. */
  function BracketedFrom(s: string, from: nat): (r: Option<string>)
    decreases |s| - from
    ensures r.Some? ==> ']' !in r.value && '\n' !in r.value
  {
    if from >= |s| then None
    else if s[from] == '[' && ClosingBracket(s, from + 1).Some? then
      var close := ClosingBracket(s, from + 1).value;
      SliceAvoids(s, from + 1, close, ']');
      SliceAvoids(s, from + 1, close, '\n');
      Some(s[from + 1..close])
    else BracketedFrom(s, from + 1)
  }

  lemma SliceAvoids(s: string, lo: nat, hi: nat, c: char)
    requires lo <= hi <= |s|
    requires forall m :: lo <= m < hi ==> s[m] != c
    ensures c !in s[lo..hi]
  {
    forall k | 0 <= k < hi - lo
      ensures s[lo..hi][k] != c
    {
      assert s[lo..hi][k] == s[lo + k];
    }
  }

  /** `preg_match('#\[(.*?)\]#', $choice, $match); $match[1]`. */
  function SelectedIdentifier(choice: string): (r: Option<string>)
    ensures r.Some? ==> ']' !in r.value && '\n' !in r.value
  {
    BracketedFrom(choice, 0)
  }

  /** The identifier is read back from its line whenever it contains no ']'
      and no line break (the persistence identifiers are UUIDs). */
  lemma {:induction false} SelectedIdentifierRoundTrip(identifier: string, details: string)
    requires ']' !in identifier && '\n' !in identifier
    ensures SelectedIdentifier(FlushEventChoice(identifier, details)) == Some(identifier)
  {
    var s := FlushEventChoice(identifier, details);
    var close := 1 + |identifier|;
    assert s[close] == ']';
    assert forall m :: 1 <= m < close ==> s[m] == identifier[m - 1];
    ClosingBracketFinds(s, 1, close);
    assert s[1..close] == identifier;
  }

  lemma {:induction false} ClosingBracketFinds(s: string, k: nat, close: nat)
    requires k <= close < |s| && s[close] == ']'
    requires forall m :: k <= m < close ==> s[m] != ']' && s[m] != '\n'
    ensures ClosingBracket(s, k) == Some(close)
    decreases close - k
  {
    if k < close {
      ClosingBracketFinds(s, k + 1, close);
    }
  }

  /** One configured cache: its identifier and the column title shown. */
  datatype CacheStore = CacheStore(identifier: string, name: string)

  function Identifiers(stores: seq<CacheStore>): (ids: seq<string>)
    ensures |ids| == |stores|
    ensures forall k :: 0 <= k < |stores| ==> ids[k] == stores[k].identifier
  {
    seq(|stores|, k requires 0 <= k < |stores| => stores[k].identifier)
  }

  /** The table headers of `flushaudit`. */
  function AuditHeaders(stores: seq<CacheStore>): (headers: seq<string>)
    ensures |headers| == 1 + |stores|
    ensures headers[0] == "Tag(s) to flush"
    ensures forall k :: 0 <= k < |stores| ==> headers[k + 1] == stores[k].name
  {
    ["Tag(s) to flush"] + seq(|stores|, k requires 0 <= k < |stores| => stores[k].name)
  }

  /** The cells of one tag's row: the recorded count per configured cache,
      0 where nothing was recorded. */
  function AuditCells(entries: seq<(string, seq<(string, nat)>)>, tag: string, stores: seq<CacheStore>): (cells: seq<nat>)
    ensures |cells| == |stores|
    ensures forall k :: 0 <= k < |stores| ==> cells[k] == AffectedCount(entries, tag, stores[k].identifier).GetOr(0)
  {
    seq(|stores|, k requires 0 <= k < |stores| => AffectedCount(entries, tag, stores[k].identifier).GetOr(0))
  }

  function CellSum(cells: seq<nat>): nat
  {
    if |cells| == 0 then 0 else cells[0] + CellSum(cells[1..])
  }

  /** A tag keeps its row when verbose or when some cache lost entries. */
  predicate KeepsRow(entries: seq<(string, seq<(string, nat)>)>, tag: string, stores: seq<CacheStore>, verbose: bool)
  {
    verbose || CellSum(AuditCells(entries, tag, stores)) != 0
  }

  /** A row per tag, written or unset tag by tag: the tags `keep` accepts,
      each with the cells `cellsOf` gives it. */
  function KeptRows<V>(tags: seq<string>, keep: string -> bool, cellsOf: string -> V): (rows: seq<(string, V)>)
    ensures Distinct(Keys(rows))
    ensures forall t :: t in Keys(rows) <==> t in tags && keep(t)
    ensures forall e :: e in rows ==> e.1 == cellsOf(e.0)
    decreases |tags|
  {
    if |tags| == 0 then []
    else
      var prefix := tags[..|tags| - 1];
      var tag := tags[|tags| - 1];
      var acc := KeptRows(prefix, keep, cellsOf);
      var rows := WriteRow(acc, tag, cellsOf(tag), keep(tag));
      KeptRowsStep(tags, keep, cellsOf, acc, rows);
      rows
  }

  lemma KeptRowsStep<V>(tags: seq<string>, keep: string -> bool, cellsOf: string -> V,
                        acc: seq<(string, V)>, rows: seq<(string, V)>)
    requires |tags| > 0
    requires Distinct(Keys(acc))
    requires forall t :: t in Keys(acc) <==> t in tags[..|tags| - 1] && keep(t)
    requires forall e :: e in acc ==> e.1 == cellsOf(e.0)
    requires rows == WriteRow(acc, tags[|tags| - 1], cellsOf(tags[|tags| - 1]), keep(tags[|tags| - 1]))
    ensures Distinct(Keys(rows))
    ensures forall t :: t in Keys(rows) <==> t in tags && keep(t)
    ensures forall e :: e in rows ==> e.1 == cellsOf(e.0)
  {
    var tag := tags[|tags| - 1];
    assert tags == tags[..|tags| - 1] + [tag];
  }

  /** `$rows[$tag] = $v` when `keep` holds, `unset($rows[$tag])` otherwise. */
  function WriteRow<V>(acc: seq<(string, V)>, tag: string, v: V, keep: bool): (rows: seq<(string, V)>)
    requires Distinct(Keys(acc))
    ensures Distinct(Keys(rows))
    ensures forall t :: t in Keys(rows) <==> (t in Keys(acc) && t != tag) || (keep && t == tag)
    ensures forall e :: e in rows ==> (e.0 == tag && e.1 == v) || (e.0 != tag && e in acc)
  {
    if keep then
      PutStep(acc, tag, v);
      Put(acc, tag, v)
    else
      RemoveStep(acc, tag);
      Remove(acc, tag)
  }

  /** The `$rows` array of `flushaudit` before `ksort`. */
  function AuditRowsUnsorted(tags: seq<string>, entries: seq<(string, seq<(string, nat)>)>,
                             stores: seq<CacheStore>, verbose: bool): (rows: seq<(string, seq<nat>)>)
    ensures Distinct(Keys(rows))
    ensures forall t :: t in Keys(rows) <==> t in tags && KeepsRow(entries, t, stores, verbose)
    ensures forall e :: e in rows ==> e.1 == AuditCells(entries, e.0, stores)
  {
    KeptRows(tags, t => KeepsRow(entries, t, stores, verbose), t => AuditCells(entries, t, stores))
  }

  /** `ksort` on string keys: byte-wise order of the keys. */
  predicate ByKey<V>(a: (string, V), b: (string, V))
  {
    LexLe(a.0, b.0)
  }

  lemma ByKeyIsTotalPreorder<V(!new)>()
    ensures Total(ByKey<V>) && Transitive(ByKey<V>)
  {
    forall a: (string, V), b: (string, V)
      ensures ByKey(a, b) || ByKey(b, a)
    {
      LexLeTotal(a.0, b.0);
    }
    forall a: (string, V), b: (string, V), c: (string, V) | ByKey(a, b) && ByKey(b, c)
      ensures ByKey(a, c)
    {
      LexLeTransitive(a.0, b.0, c.0);
    }
  }

  /** `ksort($rows)`: the same rows, ordered by key. */
  function SortByKey<V(!new)>(m: seq<(string, V)>): (r: seq<(string, V)>)
    ensures forall e :: e in r <==> e in m
    ensures forall k :: k in Keys(r) <==> k in Keys(m)
    ensures Distinct(Keys(m)) ==> Distinct(Keys(r))
    ensures forall i, j :: 0 <= i < j < |r| ==> LexLe(r[i].0, r[j].0)
  {
    var r := SortBy(m, ByKey<V>);
    ByKeyIsTotalPreorder<V>();
    SortBySorted(m, ByKey<V>);
    PermutedEntries(r, m);
    PermutedEntries(m, r);
    SortByKeyDistinct(m);
    r
  }

  lemma SortByKeyDistinct<V>(m: seq<(string, V)>)
    ensures Distinct(Keys(m)) ==> Distinct(Keys(SortBy(m, ByKey<V>)))
  {
    if Distinct(Keys(m)) {
      SortByKeepsKeysDistinct(m, ByKey<V>);
    }
  }

  /** The rows of the `flushaudit` table for a selected event: one per tag to
      flush that keeps its row, with one cell per configured cache, ordered
      by tag. */
  function AuditRows(e: FlushEvent, stores: seq<CacheStore>, verbose: bool): (rows: seq<(string, seq<nat>)>)
    ensures Distinct(Keys(rows))
    ensures forall t :: t in Keys(rows) <==> t in e.tagsToFlush && KeepsRow(e.affectedEntries, t, stores, verbose)
    ensures forall row :: row in rows ==> row.1 == AuditCells(e.affectedEntries, row.0, stores)
    ensures forall i, j :: 0 <= i < j < |rows| ==> LexLe(rows[i].0, rows[j].0)
  {
    SortByKey(AuditRowsUnsorted(e.tagsToFlush, e.affectedEntries, stores, verbose))
  }

  /** Each cell of an audit row is the count recorded for its tag and cache,
      0 where none was recorded. */
  lemma AuditRowCells(e: FlushEvent, stores: seq<CacheStore>, verbose: bool)
    ensures var rows := AuditRows(e, stores, verbose);
      forall i, k :: 0 <= i < |rows| && 0 <= k < |stores| ==>
        |rows[i].1| == |stores| &&
        rows[i].1[k] == AffectedCount(e.affectedEntries, rows[i].0, stores[k].identifier).GetOr(0)
  {
    var rows := AuditRows(e, stores, verbose);
    forall i | 0 <= i < |rows|
      ensures rows[i].1 == AuditCells(e.affectedEntries, rows[i].0, stores)
    {
      assert rows[i] in rows;
    }
  }

  /** The cells of a row sum to 0 exactly when every cell is 0. */
  lemma {:induction false} CellSumZero(cells: seq<nat>)
    ensures CellSum(cells) == 0 <==> forall k :: 0 <= k < |cells| ==> cells[k] == 0
    decreases |cells|
  {
    if |cells| > 0 {
      CellSumZero(cells[1..]);
      assert forall k :: 1 <= k < |cells| ==> cells[k] == cells[1..][k - 1];
    }
  }

  /** For one flushed tag: its cells are the recorded store counts, and it
      keeps its row exactly when verbose or one of them is non-zero. */
  lemma RecordedCells(entries: seq<(string, seq<(string, nat)>)>, tags: seq<string>, stores: seq<CacheStore>,
                      verbose: bool, storeCount: (string, string) -> nat, t: string)
    requires LoggingAspect.RecordedCounts(entries, tags, Identifiers(stores), storeCount)
    requires t in tags
    ensures forall k :: 0 <= k < |stores| ==>
              AuditCells(entries, t, stores)[k] == storeCount(stores[k].identifier, LoggingAspect.SanitizeTag(t))
    ensures KeepsRow(entries, t, stores, verbose) <==>
              verbose || exists k :: 0 <= k < |stores| && storeCount(stores[k].identifier, LoggingAspect.SanitizeTag(t)) != 0
  {
    var cells := AuditCells(entries, t, stores);
    forall k | 0 <= k < |stores|
      ensures cells[k] == storeCount(stores[k].identifier, LoggingAspect.SanitizeTag(t))
    {
      assert Identifiers(stores)[k] == stores[k].identifier;
    }
    CellSumZero(cells);
  }

  /** Read against the counts `logCacheFlush` recorded, every cell of the
      audit table is the entry count its cache held under the sanitized tag
      when the flush was logged, and a tag keeps its row exactly when
      `--verbose` is given or one of those counts is non-zero. */
  lemma AuditCellsAreStoreCounts(e: FlushEvent, stores: seq<CacheStore>, verbose: bool,
                                 storeCount: (string, string) -> nat)
    requires LoggingAspect.RecordedCounts(e.affectedEntries, e.tagsToFlush, Identifiers(stores), storeCount)
    ensures forall row :: row in AuditRows(e, stores, verbose) ==> |row.1| == |stores|
    ensures forall row, k :: row in AuditRows(e, stores, verbose) && 0 <= k < |stores| ==>
      row.1[k] == storeCount(stores[k].identifier, LoggingAspect.SanitizeTag(row.0))
    ensures forall t :: t in Keys(AuditRows(e, stores, verbose)) <==>
      t in e.tagsToFlush &&
      (verbose || exists k :: 0 <= k < |stores| && storeCount(stores[k].identifier, LoggingAspect.SanitizeTag(t)) != 0)
  {
    AuditCellsRecorded(e, stores, verbose, storeCount);
    AuditRowsKept(e, stores, verbose, storeCount);
  }

  lemma AuditCellsRecorded(e: FlushEvent, stores: seq<CacheStore>, verbose: bool,
                           storeCount: (string, string) -> nat)
    requires LoggingAspect.RecordedCounts(e.affectedEntries, e.tagsToFlush, Identifiers(stores), storeCount)
    ensures forall row :: row in AuditRows(e, stores, verbose) ==> |row.1| == |stores|
    ensures forall row, k :: row in AuditRows(e, stores, verbose) && 0 <= k < |stores| ==>
      row.1[k] == storeCount(stores[k].identifier, LoggingAspect.SanitizeTag(row.0))
  {
    forall row, k | row in AuditRows(e, stores, verbose) && 0 <= k < |stores|
      ensures row.1[k] == storeCount(stores[k].identifier, LoggingAspect.SanitizeTag(row.0))
    {
      AuditCellRecorded(e, stores, verbose, storeCount, row, k);
    }
  }

  lemma AuditCellRecorded(e: FlushEvent, stores: seq<CacheStore>, verbose: bool,
                          storeCount: (string, string) -> nat, row: (string, seq<nat>), k: nat)
    requires LoggingAspect.RecordedCounts(e.affectedEntries, e.tagsToFlush, Identifiers(stores), storeCount)
    requires row in AuditRows(e, stores, verbose) && k < |stores|
    ensures |row.1| == |stores|
    ensures row.1[k] == storeCount(stores[k].identifier, LoggingAspect.SanitizeTag(row.0))
  {
    var rows := AuditRows(e, stores, verbose);
    var i :| 0 <= i < |rows| && rows[i] == row;
    assert Keys(rows)[i] == row.0;
    RecordedCells(e.affectedEntries, e.tagsToFlush, stores, verbose, storeCount, row.0);
  }

  lemma AuditRowsKept(e: FlushEvent, stores: seq<CacheStore>, verbose: bool,
                      storeCount: (string, string) -> nat)
    requires LoggingAspect.RecordedCounts(e.affectedEntries, e.tagsToFlush, Identifiers(stores), storeCount)
    ensures forall t :: t in Keys(AuditRows(e, stores, verbose)) <==>
      t in e.tagsToFlush &&
      (verbose || exists k :: 0 <= k < |stores| && storeCount(stores[k].identifier, LoggingAspect.SanitizeTag(t)) != 0)
  {
    forall t | t in e.tagsToFlush
      ensures KeepsRow(e.affectedEntries, t, stores, verbose) <==>
        (verbose || exists k :: 0 <= k < |stores| && storeCount(stores[k].identifier, LoggingAspect.SanitizeTag(t)) != 0)
    {
      RecordedCells(e.affectedEntries, e.tagsToFlush, stores, verbose, storeCount, t);
    }
  }

  /** The header names the tag column and then, column by column, the cache
      whose counts fill the cells below it: one title per cell of every row. */
  lemma AuditHeadersFitRows(e: FlushEvent, stores: seq<CacheStore>, verbose: bool)
    ensures var rows := AuditRows(e, stores, verbose);
      var headers := AuditHeaders(stores);
      forall i :: 0 <= i < |rows| ==> |headers| == 1 + |rows[i].1|
    ensures var rows := AuditRows(e, stores, verbose);
      var headers := AuditHeaders(stores);
      forall i, k :: 0 <= i < |rows| && 0 <= k < |stores| ==>
        headers[k + 1] == stores[k].name &&
        rows[i].1[k] == AffectedCount(e.affectedEntries, rows[i].0, stores[k].identifier).GetOr(0)
  {
    AuditRowCells(e, stores, verbose);
  }
}
