/** The two logged entities. `Activity` is the full-page-cache activity
    record (the aspect and the command controller import it under the name
    FullPageCacheEvent; both names denote one record with the same getters).
    `FlushEvent` is the content-cache flush record. Getters are the datatype
    fields; each setter is a function returning the updated record.
    Timestamps are abstract integers. */
module Entities {
  import opened Optional
  import opened Assoc

  /** Declared column widths of the activity table. */
  const UriColumnLength: nat := 4000
  const CacheInfoColumnLength: nat := 4

  /** Fields PHP leaves `null` until their setter runs are the empty string or
      list here, except `cacheInfo`, whose `null` the aspect tests for. */
  datatype Activity = Activity(
    dateCreated: int,
    uri: string,
    cacheInfo: Option<string>,
    disallowedCookieParams: seq<string>,
    disallowedQueryParams: seq<string>)

  /** The constructor stamps the creation time; nothing else is set. */
  function NewActivity(now: int): (a: Activity)
    ensures a.dateCreated == now
    ensures a.cacheInfo.None?
    ensures a.uri == [] && a.disallowedCookieParams == [] && a.disallowedQueryParams == []
  {
    Activity(now, "", None, [], [])
  }

  function SetUri(a: Activity, uri: string): (r: Activity)
    ensures r.uri == uri
    ensures r.(uri := a.uri) == a
  {
    a.(uri := uri)
  }

  function SetCacheInfo(a: Activity, cacheInfo: string): (r: Activity)
    ensures r.cacheInfo == Some(cacheInfo)
    ensures r.(cacheInfo := a.cacheInfo) == a
  {
    a.(cacheInfo := Some(cacheInfo))
  }

  function SetDisallowedCookieParams(a: Activity, params: seq<string>): (r: Activity)
    ensures r.disallowedCookieParams == params
    ensures r.(disallowedCookieParams := a.disallowedCookieParams) == a
  {
    a.(disallowedCookieParams := params)
  }

  function SetDisallowedQueryParams(a: Activity, params: seq<string>): (r: Activity)
    ensures r.disallowedQueryParams == params
    ensures r.(disallowedQueryParams := a.disallowedQueryParams) == a
  {
    a.(disallowedQueryParams := params)
  }

  /** A call of one of the activity's public setters. */
  datatype ActivityUpdate =
    | UriUpdate(uri: string)
    | CacheInfoUpdate(cacheInfo: string)
    | CookieParamsUpdate(params: seq<string>)
    | QueryParamsUpdate(params: seq<string>)

  function ApplyActivityUpdate(a: Activity, u: ActivityUpdate): Activity
  {
    match u
    case UriUpdate(uri) => SetUri(a, uri)
    case CacheInfoUpdate(c) => SetCacheInfo(a, c)
    case CookieParamsUpdate(p) => SetDisallowedCookieParams(a, p)
    case QueryParamsUpdate(p) => SetDisallowedQueryParams(a, p)
  }

  /** The setter calls `us`, performed in order. */
  function ApplyActivityUpdates(a: Activity, us: seq<ActivityUpdate>): Activity
    decreases |us|
  {
    if |us| == 0 then a
    else ApplyActivityUpdate(ApplyActivityUpdates(a, us[..|us| - 1]), us[|us| - 1])
  }

  /** The value passed by the last `setCacheInfo` call among `us`, if any. */
  function LastCacheInfoSet(us: seq<ActivityUpdate>): Option<string>
    decreases |us|
  {
    if |us| == 0 then None
    else if us[|us| - 1].CacheInfoUpdate? then Some(us[|us| - 1].cacheInfo)
    else LastCacheInfoSet(us[..|us| - 1])
  }

  /** No setter touches the creation time. */
  lemma {:induction false} ActivityDateCreatedIsFixed(a: Activity, us: seq<ActivityUpdate>)
    ensures ApplyActivityUpdates(a, us).dateCreated == a.dateCreated
    decreases |us|
  {
    if |us| > 0 {
      ActivityDateCreatedIsFixed(a, us[..|us| - 1]);
    }
  }

  /** A fresh activity's cacheInfo is null until `setCacheInfo` is called;
      afterwards it is the value most recently set. */
  lemma {:induction false} ActivityCacheInfoIsLastSet(now: int, us: seq<ActivityUpdate>)
    ensures ApplyActivityUpdates(NewActivity(now), us).cacheInfo == LastCacheInfoSet(us)
    decreases |us|
  {
    if |us| > 0 {
      ActivityCacheInfoIsLastSet(now, us[..|us| - 1]);
    }
  }

  /** Only the keys of `tagsToFlush` and `workspacesToFlush` are ever read, so
      those arrays are their key lists. `affectedEntries` maps each tag to an
      array from cache identifier to entry count. */
  datatype FlushEvent = FlushEvent(
    dateCreated: int,
    tagsToFlush: seq<string>,
    workspacesToFlush: seq<string>,
    affectedEntries: seq<(string, seq<(string, nat)>)>)

  /** `$affectedEntries[$tag][$identifier] ?? null`. */
  function AffectedCount(entries: seq<(string, seq<(string, nat)>)>, tag: string, identifier: string): Option<nat>
  {
    match Lookup(entries, tag)
    case None => None
    case Some(row) => Lookup(row, identifier)
  }

  function NewFlushEvent(now: int): (e: FlushEvent)
    ensures e.dateCreated == now
    ensures e.tagsToFlush == [] && e.workspacesToFlush == [] && e.affectedEntries == []
  {
    FlushEvent(now, [], [], [])
  }

  function SetTagsToFlush(e: FlushEvent, tags: seq<string>): (r: FlushEvent)
    ensures r.tagsToFlush == tags
    ensures r.(tagsToFlush := e.tagsToFlush) == e
  {
    e.(tagsToFlush := tags)
  }

  function SetWorkspacesToFlush(e: FlushEvent, workspaces: seq<string>): (r: FlushEvent)
    ensures r.workspacesToFlush == workspaces
    ensures r.(workspacesToFlush := e.workspacesToFlush) == e
  {
    e.(workspacesToFlush := workspaces)
  }

  function SetAffectedEntries(e: FlushEvent, entries: seq<(string, seq<(string, nat)>)>): (r: FlushEvent)
    ensures r.affectedEntries == entries
    ensures r.(affectedEntries := e.affectedEntries) == e
  {
    e.(affectedEntries := entries)
  }

  /** A call of one of the flush event's public setters. */
  datatype FlushEventUpdate =
    | TagsUpdate(tags: seq<string>)
    | WorkspacesUpdate(workspaces: seq<string>)
    | AffectedEntriesUpdate(entries: seq<(string, seq<(string, nat)>)>)

  function ApplyFlushEventUpdate(e: FlushEvent, u: FlushEventUpdate): FlushEvent
  {
    match u
    case TagsUpdate(t) => SetTagsToFlush(e, t)
    case WorkspacesUpdate(w) => SetWorkspacesToFlush(e, w)
    case AffectedEntriesUpdate(m) => SetAffectedEntries(e, m)
  }

  function ApplyFlushEventUpdates(e: FlushEvent, us: seq<FlushEventUpdate>): FlushEvent
    decreases |us|
  {
    if |us| == 0 then e
    else ApplyFlushEventUpdate(ApplyFlushEventUpdates(e, us[..|us| - 1]), us[|us| - 1])
  }

  /** No setter touches the creation time of a flush event. */
  lemma {:induction false} FlushEventDateCreatedIsFixed(e: FlushEvent, us: seq<FlushEventUpdate>)
    ensures ApplyFlushEventUpdates(e, us).dateCreated == e.dateCreated
    decreases |us|
  {
    if |us| > 0 {
      FlushEventDateCreatedIsFixed(e, us[..|us| - 1]);
    }
  }
}
