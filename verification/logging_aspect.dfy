/** The logging aspect: what is recorded after the full-page-cache middleware
    has answered a request, and what is recorded before the content cache
    flusher flushes its collected tags. The intercepted objects are replaced
    by the values the aspect reads from them; persisting is returning the
    record. */
module LoggingAspect {
  import opened Optional
  import opened Seqs
  import opened Strings
  import opened Assoc
  import opened Entities

  const SKIP: string := "SKIP"
  const MISS: string := "MISS"
  const HIT: string := "HIT"

  /** The `logFullPageCache` settings of the package. */
  datatype FullPageCacheSettings = FullPageCacheSettings(
    cacheInfos: seq<string>,            // the categories that are logged
    disallowedCookieParams: bool,       // the setting is exactly `true`
    disallowedQueryParams: bool)

  /** The full-page cache's own request parameter lists. */
  datatype ParamLists = ParamLists(
    allowedQueryParams: seq<string>,
    ignoredQueryParams: seq<string>,
    ignoredCookieParams: seq<string>)

  /** The parts of the intercepted request the aspect reads; cookie and query
      parameters are given by their keys, in request order. */
  datatype Request = Request(httpMethod: string, uri: string, cookieParams: seq<string>, queryParams: seq<string>)

  /** The keys that are not in `listed`, in their original order. */
  function RemoveListed(keys: seq<string>, listed: seq<string>): (r: seq<string>)
    ensures forall k :: k in r <==> k in keys && k !in listed
    ensures IsSubsequence(r, keys)
  {
    if |keys| == 0 then []
    else
      var rest := RemoveListed(keys[1..], listed);
      if keys[0] in listed then rest
      else
        assert ([keys[0]] + rest)[1..] == rest;
        [keys[0]] + rest
  }

  /** Each kept key occurs as often as it did among the request's keys. */
  lemma {:induction false} RemoveListedOccurrences(keys: seq<string>, listed: seq<string>, k: string)
    ensures Occurrences(RemoveListed(keys, listed), k) == if k in listed then 0 else Occurrences(keys, k)
    decreases |keys|
  {
    if |keys| > 0 {
      var rest := RemoveListed(keys[1..], listed);
      RemoveListedOccurrences(keys[1..], listed, k);
      assert keys == [keys[0]] + keys[1..];
      OccurrencesCons(keys[0], keys[1..], k);
      if keys[0] !in listed {
        OccurrencesCons(keys[0], rest, k);
      }
    }
  }

  /** The category the header describes, testing SKIP, then MISS, then HIT and
      taking the first enabled one that prefixes it: the classification the
      recorder is meant to perform. */
  function FirstEnabledCategory(cacheInfos: seq<string>, header: string): Option<string>
  {
    if SKIP in cacheInfos && IsPrefix(SKIP, header) then Some(SKIP)
    else if MISS in cacheInfos && IsPrefix(MISS, header) then Some(MISS)
    else if HIT in cacheInfos && IsPrefix(HIT, header) then Some(HIT)
    else None
  }

  /** No header starts with two of the three category names. */
  lemma CategoriesExclusive(header: string)
    ensures !(IsPrefix(SKIP, header) && IsPrefix(MISS, header))
    ensures !(IsPrefix(SKIP, header) && IsPrefix(HIT, header))
    ensures !(IsPrefix(MISS, header) && IsPrefix(HIT, header))
  {
    if |header| > 0 {
      assert IsPrefix(SKIP, header) ==> header[0] == 'S';
      assert IsPrefix(MISS, header) ==> header[0] == 'M';
      assert IsPrefix(HIT, header) ==> header[0] == 'H';
    }
  }

  /** The aspect's `logFullPageCache`. `settings` is None when the settings
      are empty; `header` is the first `X-FullPageCache-Info` value, None when
      the response has no such header. The three category tests run one
      after the other, each overwriting the cacheInfo set by the previous. */
  function LogFullPageCache(settings: Option<FullPageCacheSettings>, lists: ParamLists, request: Request,
                            header: Option<string>, now: int): (r: Option<Activity>)
    ensures r.Some? ==> settings.Some? && header.Some? && ToUpper(request.httpMethod) in ["GET", "HEAD"]
    ensures settings.Some? && header.Some? && ToUpper(request.httpMethod) in ["GET", "HEAD"] ==>
              (r.Some? <==> FirstEnabledCategory(settings.value.cacheInfos, header.value).Some?)
    ensures r.Some? ==> r.value.cacheInfo == FirstEnabledCategory(settings.value.cacheInfos, header.value)
    ensures r.Some? ==> r.value.cacheInfo.value in [SKIP, MISS, HIT]
    ensures r.Some? ==> |r.value.cacheInfo.value| <= CacheInfoColumnLength
    ensures r.Some? ==> r.value.uri == request.uri && r.value.dateCreated == now
    ensures r.Some? ==> IsSubsequence(r.value.disallowedCookieParams, request.cookieParams)
    ensures r.Some? ==> IsSubsequence(r.value.disallowedQueryParams, request.queryParams)
    ensures r.Some? && r.value.cacheInfo == Some(SKIP) && settings.value.disallowedCookieParams ==>
              forall k :: k in r.value.disallowedCookieParams <==>
                k in request.cookieParams && k !in lists.ignoredCookieParams
    ensures r.Some? && !(r.value.cacheInfo == Some(SKIP) && settings.value.disallowedCookieParams) ==>
              r.value.disallowedCookieParams == []
    ensures r.Some? && r.value.cacheInfo == Some(SKIP) && settings.value.disallowedQueryParams ==>
              forall k :: k in r.value.disallowedQueryParams <==>
                k in request.queryParams && k !in lists.allowedQueryParams && k !in lists.ignoredQueryParams
    ensures r.Some? && !(r.value.cacheInfo == Some(SKIP) && settings.value.disallowedQueryParams) ==>
              r.value.disallowedQueryParams == []
  {
    if settings.None? then None
    else if !(ToUpper(request.httpMethod) in ["GET", "HEAD"]) || header.None? then None
    else
      var s := settings.value;
      var info := header.value;
      CategoriesExclusive(info);
      var event := NewActivity(now);
      var skip := SKIP in s.cacheInfos && StartsWith(info, SKIP);
      var event := if skip then SetCacheInfo(event, SKIP) else event;
      var cookieParams :=
        if skip && s.disallowedCookieParams then RemoveListed(request.cookieParams, lists.ignoredCookieParams) else [];
      var queryParams :=
        if skip && s.disallowedQueryParams
        then RemoveListed(request.queryParams, lists.allowedQueryParams + lists.ignoredQueryParams)
        else [];
      var event := if MISS in s.cacheInfos && StartsWith(info, MISS) then SetCacheInfo(event, MISS) else event;
      var event := if HIT in s.cacheInfos && StartsWith(info, HIT) then SetCacheInfo(event, HIT) else event;
      if event.cacheInfo.None? then None
      else
        Some(SetDisallowedQueryParams(SetDisallowedCookieParams(SetUri(event, request.uri), cookieParams), queryParams))
  }

  /** The aspect's `sanitizeTag`: `strtr($tag, '.:', '_-')`, which turns
      "NodeType_Acme.Com:Page" into "NodeType_Acme_Com-Page". */
  function SanitizeTag(tag: string): (r: string)
    ensures |r| == |tag|
    ensures forall i :: 0 <= i < |tag| ==>
              r[i] == (if tag[i] == '.' then '_' else if tag[i] == ':' then '-' else tag[i])
    ensures '.' !in r && ':' !in r
    ensures Translate(r, ".:", "_-") == r
  {
    var r := Translate(tag, ".:", "_-");
    assert forall c: char :: (TranslateChar(c, ".:", "_-") ==
      (if c == '.' then '_' else if c == ':' then '-' else c)) by {
      forall c: char
        ensures TranslateChar(c, ".:", "_-") == (if c == '.' then '_' else if c == ':' then '-' else c)
      {
        assert ".:"[..1] == "." && "_-"[..1] == "_";
        assert "."[..0] == "" && "_"[..0] == "";
      }
    }
    r
  }

  /** `$affectedEntries[$tag][$identifier] = $count`. */
  function SetCount(affected: seq<(string, seq<(string, nat)>)>, tag: string, identifier: string, n: nat)
    : seq<(string, seq<(string, nat)>)>
  {
    Put(affected, tag, Put(Lookup(affected, tag).GetOr([]), identifier, n))
  }

  /** Setting a count adds `tag` to the keys and keeps them distinct. */
  lemma SetCountKeys(affected: seq<(string, seq<(string, nat)>)>, tag: string, identifier: string, n: nat)
    requires Distinct(Keys(affected))
    ensures Distinct(Keys(SetCount(affected, tag, identifier, n)))
    ensures forall t :: t in Keys(SetCount(affected, tag, identifier, n)) <==> t in Keys(affected) || t == tag
  {
    PutDistinct(affected, tag, Put(Lookup(affected, tag).GetOr([]), identifier, n));
  }

  /** Setting a count changes that one count and nothing else. */
  lemma SetCountValues(affected: seq<(string, seq<(string, nat)>)>, tag: string, identifier: string, n: nat)
    ensures AffectedCount(SetCount(affected, tag, identifier, n), tag, identifier) == Some(n)
    ensures forall t, x :: t != tag || x != identifier ==>
              AffectedCount(SetCount(affected, tag, identifier, n), t, x) == AffectedCount(affected, t, x)
  {
    SetCountAt(affected, tag, identifier, n, tag, identifier);
    forall t, x | t != tag || x != identifier
      ensures AffectedCount(SetCount(affected, tag, identifier, n), t, x) == AffectedCount(affected, t, x)
    {
      SetCountAt(affected, tag, identifier, n, t, x);
    }
  }

  lemma SetCountAt(affected: seq<(string, seq<(string, nat)>)>, tag: string, identifier: string, n: nat,
                   t: string, x: string)
    ensures AffectedCount(SetCount(affected, tag, identifier, n), t, x)
            == if t == tag && x == identifier then Some(n) else AffectedCount(affected, t, x)
  {
    var row := Lookup(affected, tag).GetOr([]);
    var newRow := Put(row, identifier, n);
    if t != tag {
      PutOther(affected, tag, newRow, t);
    } else if x != identifier {
      PutOther(row, identifier, n, x);
    }
  }

  /** Every count of `r` is the one in `affected`, except counts of `tag`
      in the caches of `ids`, which are `count`'s. */
  ghost predicate OnlyTagRecorded(r: seq<(string, seq<(string, nat)>)>, affected: seq<(string, seq<(string, nat)>)>,
                            tag: string, ids: seq<string>, count: string -> nat)
  {
    forall t, id :: AffectedCount(r, t, id) == AffectedCount(affected, t, id) ||
      (t == tag && id in ids && AffectedCount(r, t, id) == Some(count(id)))
  }

  lemma SetCountStep(r: seq<(string, seq<(string, nat)>)>, affected: seq<(string, seq<(string, nat)>)>,
                     tag: string, ids: seq<string>, count: string -> nat, j: nat)
    requires j < |ids|
    requires OnlyTagRecorded(r, affected, tag, ids, count)
    ensures OnlyTagRecorded(SetCount(r, tag, ids[j], count(ids[j])), affected, tag, ids, count)
  {
    var id := ids[j];
    var next := SetCount(r, tag, id, count(id));
    forall t, x
      ensures AffectedCount(next, t, x) == AffectedCount(affected, t, x) ||
              (t == tag && x in ids && AffectedCount(next, t, x) == Some(count(x)))
    {
      SetCountAt(r, tag, id, count(id), t, x);
    }
  }

  lemma SetCountPrefix(r: seq<(string, seq<(string, nat)>)>, tag: string, done: seq<string>, id: string,
                       count: string -> nat)
    requires forall x :: x in done ==> AffectedCount(r, tag, x) == Some(count(x))
    ensures forall x :: x in done + [id] ==> AffectedCount(SetCount(r, tag, id, count(id)), tag, x) == Some(count(x))
  {
    forall x | x in done + [id]
      ensures AffectedCount(SetCount(r, tag, id, count(id)), tag, x) == Some(count(x))
    {
      SetCountAt(r, tag, id, count(id), tag, x);
    }
  }

  /** One pass of the inner loop of `logCacheFlush` keeps its invariants. */
  lemma CountTagStep(r: seq<(string, seq<(string, nat)>)>, affected: seq<(string, seq<(string, nat)>)>,
                     tag: string, ids: seq<string>, count: string -> nat, j: nat)
    requires j < |ids|
    requires Distinct(Keys(r))
    requires forall t :: t in Keys(r) <==> t in Keys(affected) || (j > 0 && t == tag)
    requires forall x :: x in ids[..j] ==> AffectedCount(r, tag, x) == Some(count(x))
    requires OnlyTagRecorded(r, affected, tag, ids, count)
    ensures var next := SetCount(r, tag, ids[j], count(ids[j]));
      Distinct(Keys(next)) &&
      (forall t :: t in Keys(next) <==> t in Keys(affected) || t == tag) &&
      (forall x :: x in ids[..j + 1] ==> AffectedCount(next, tag, x) == Some(count(x))) &&
      OnlyTagRecorded(next, affected, tag, ids, count)
  {
    var id := ids[j];
    SetCountKeys(r, tag, id, count(id));
    SetCountStep(r, affected, tag, ids, count, j);
    SetCountPrefix(r, tag, ids[..j], id, count);
    assert ids[..j + 1] == ids[..j] + [id];
  }

  /** The inner loop of `logCacheFlush`: the counts of one tag in every
      configured cache, `count(id)` being the number of entries cache `id`
      holds under the sanitized tag. */
  method CountTagInCaches(affected: seq<(string, seq<(string, nat)>)>, tag: string, cacheIdentifiers: seq<string>,
                          count: string -> nat) returns (r: seq<(string, seq<(string, nat)>)>)
    requires Distinct(Keys(affected))
    requires |cacheIdentifiers| > 0
    ensures Distinct(Keys(r))
    ensures forall t :: t in Keys(r) <==> t in Keys(affected) || t == tag
    ensures forall id :: id in cacheIdentifiers ==> AffectedCount(r, tag, id) == Some(count(id))
    ensures OnlyTagRecorded(r, affected, tag, cacheIdentifiers, count)
  {
    r := affected;
    for j := 0 to |cacheIdentifiers|
      invariant Distinct(Keys(r))
      invariant forall t :: t in Keys(r) <==> t in Keys(affected) || (j > 0 && t == tag)
      invariant forall x :: x in cacheIdentifiers[..j] ==> AffectedCount(r, tag, x) == Some(count(x))
      invariant OnlyTagRecorded(r, affected, tag, cacheIdentifiers, count)
    {
      CountTagStep(r, affected, tag, cacheIdentifiers, count, j);
      r := SetCount(r, tag, cacheIdentifiers[j], count(cacheIdentifiers[j]));
    }
  }

  /** Every flushed tag holds, for every configured cache, the number of
      entries that cache has under the sanitized tag. */
  predicate RecordedCounts(entries: seq<(string, seq<(string, nat)>)>, tagsToFlush: seq<string>,
                           cacheIdentifiers: seq<string>, storeCount: (string, string) -> nat)
  {
    forall t, id :: t in tagsToFlush && id in cacheIdentifiers ==>
      AffectedCount(entries, t, id) == Some(storeCount(id, SanitizeTag(t)))
  }

  /** The aspect's `logCacheFlush`. `storeCount(identifier, tag)` is the
      number of entries the cache `identifier` currently holds under `tag`;
      `cacheIdentifiers` are the configured caches, in configuration order.
      The count is taken for the sanitized tag and recorded under the
      original one. */
  method LogCacheFlush(tagsToFlush: seq<string>, workspacesToFlush: seq<string>, cacheIdentifiers: seq<string>,
                       storeCount: (string, string) -> nat, now: int) returns (event: FlushEvent)
    ensures event.dateCreated == now
    ensures event.tagsToFlush == tagsToFlush && event.workspacesToFlush == workspacesToFlush
    ensures |cacheIdentifiers| == 0 ==> event.affectedEntries == []
    ensures |cacheIdentifiers| > 0 ==> forall t :: t in Keys(event.affectedEntries) <==> t in tagsToFlush
    ensures Distinct(Keys(event.affectedEntries))
    ensures RecordedCounts(event.affectedEntries, tagsToFlush, cacheIdentifiers, storeCount)
    ensures forall t, id :: AffectedCount(event.affectedEntries, t, id).Some? ==>
              id in cacheIdentifiers && AffectedCount(event.affectedEntries, t, id) == Some(storeCount(id, SanitizeTag(t)))
  {
    var affected: seq<(string, seq<(string, nat)>)> := [];
    if |cacheIdentifiers| > 0 {
      for i := 0 to |tagsToFlush|
        invariant Distinct(Keys(affected))
        invariant forall t :: t in Keys(affected) <==> t in tagsToFlush[..i]
        invariant forall t, id :: t in tagsToFlush[..i] && id in cacheIdentifiers ==>
                    AffectedCount(affected, t, id) == Some(storeCount(id, SanitizeTag(t)))
        invariant forall t, id :: AffectedCount(affected, t, id).Some? ==>
                    id in cacheIdentifiers && AffectedCount(affected, t, id) == Some(storeCount(id, SanitizeTag(t)))
      {
        assert tagsToFlush[..i + 1] == tagsToFlush[..i] + [tagsToFlush[i]];
        var tag := tagsToFlush[i];
        affected := CountTagInCaches(affected, tag, cacheIdentifiers, id => storeCount(id, SanitizeTag(tag)));
      }
      assert tagsToFlush[..|tagsToFlush|] == tagsToFlush;
    }
    event := NewFlushEvent(now);
    event := SetTagsToFlush(event, tagsToFlush);
    event := SetWorkspacesToFlush(event, workspacesToFlush);
    event := SetAffectedEntries(event, affected);
  }
}
