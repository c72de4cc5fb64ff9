# Tms.CacheMonitor in Dafny

A model of the Neos Flow package Tms.CacheMonitor, with proofs about it. The
package watches two Neos caches:

- the full-page cache: after its middleware has answered a request, an aspect
  records what happened to the request (SKIP, MISS or HIT) and which cookie
  and query parameters made it uncacheable;
- the content cache: before the content cache flusher flushes its collected
  tags, an aspect records the tags, the workspaces and, per tag and configured
  cache, how many entries the flush is about to remove.

The command controller then reports on these records: `info` ranks the
disallowed parameters, `search` lists the uris whose records name a
parameter, `uris` groups the uris of one cacheInfo category, `flushaudit`
tabulates a recorded flush, and `decodecachetag` explains a content-cache tag.

The model is a set of pure functions over immutable values:

| module | file | what it holds |
|---|---|---|
| `Optional`, `Seqs`, `Strings`, `Explode` | optional.dfy, seqs.dfy, strings.dfy, explode.dfy | PHP's string functions (`strpos`, `strtoupper`, `strtr`, `trim`, `explode`) as the package uses them |
| `Assoc`, `Sorting`, `Tallies` | assoc.dfy, sorting.dfy, tally.dfy | PHP ordered arrays as association lists, a stable sort, and counting by value |
| `Entities` | entities.dfy | the two recorded entities and their setters |
| `ActivityRepository` | activity_repository.dfy | the repository's ordering and its two grouping queries |
| `LoggingAspect` | logging_aspect.dfy | the two recording advices |
| `Reports` | reports.dfy | the `info`, `search`, `uris` and `flushaudit` commands |
| `TagDecoder` | tag_decoder.dfy | the `decodecachetag` command |

The stored records are given as a sequence in storage order. The cache
store's entry count, the MD5 hash and the UUID test are function-valued
parameters. Times are integers.

## Model

| member | source | states |
|---|---|---|
| Strings.StartsWith | Classes/Aspects/LoggingAspect.php:203-205 | `strpos(h, n) === 0` holds exactly when `n` is a prefix of `h`, including for the empty needle (PHP 8) |
| LoggingAspect.SanitizeTag | Classes/Aspects/LoggingAspect.php:213-216 | every '.' becomes '_' and every ':' becomes '-'; the length is kept; the result has no '.' or ':' and sanitizing it again changes nothing |
| LoggingAspect.RemoveListed | Classes/Aspects/LoggingAspect.php:103-131 | the parameters kept are exactly the request's keys that are on none of the excluded lists, in request order |
| LoggingAspect.RemoveListedOccurrences | Classes/Aspects/LoggingAspect.php:103-131 | a kept parameter occurs as often as it does in the request, an excluded one not at all |
| LoggingAspect.CategoriesExclusive | Classes/Aspects/LoggingAspect.php:107-148 | no header starts with two of SKIP, MISS and HIT, so the three overwriting tests select the same category as a first-match test |
| LoggingAspect.LogFullPageCache | Classes/Aspects/LoggingAspect.php:85-161 | a record is written only for GET or HEAD (any case), with settings and a cache-info header, and exactly when an enabled category prefixes the header; it carries that category (at most 4 characters), the uri and the time; disallowed cookie parameters are the request cookies minus the ignored ones and disallowed query parameters are the query keys minus the allowed and ignored ones, both only for SKIP with the setting on, otherwise empty |
| LoggingAspect.SetCountValues | Classes/Aspects/LoggingAspect.php:186 | writing `$affectedEntries[$tag][$id]` sets that one count and leaves every other (tag, cache) count as it was |
| LoggingAspect.CountTagInCaches | Classes/Aspects/LoggingAspect.php:183-187 | after the inner loop, every configured cache has the tag's count recorded, the tag is the only key added, and nothing else is recorded for it |
| LoggingAspect.LogCacheFlush | Classes/Aspects/LoggingAspect.php:169-194 | the event keeps the flushed tags, workspaces and time; with no configured caches nothing is counted; otherwise the counted tags are exactly the flushed tags, each once, and each (tag, cache) count is the cache's entry count for the sanitized tag, with no count for an unconfigured cache |
| Entities.SetUri | Classes/Domain/Model/FullpagecacheActivity.php:64-76 | the getter returns what the setter stored and no other field changes |
| Entities.SetCacheInfo | Classes/Domain/Model/FullpagecacheActivity.php:81-93 | the getter returns what the setter stored and no other field changes |
| Entities.SetDisallowedCookieParams | Classes/Domain/Model/FullpagecacheActivity.php:98-110 | the getter returns what the setter stored and no other field changes |
| Entities.SetDisallowedQueryParams | Classes/Domain/Model/FullpagecacheActivity.php:115-127 | the getter returns what the setter stored and no other field changes |
| Entities.ActivityDateCreatedIsFixed | Classes/Domain/Model/FullpagecacheActivity.php:48-59 | the creation time set by the constructor survives any sequence of setter calls |
| Entities.ActivityCacheInfoIsLastSet | Classes/Domain/Model/FullpagecacheActivity.php:81-93 | a new record's cacheInfo is the value of the last `setCacheInfo` call, null when there was none |
| Entities.SetTagsToFlush | Classes/Domain/Model/ContentCacheFlushEvent.php:65-77 | the getter returns what the setter stored and no other field changes |
| Entities.SetWorkspacesToFlush | Classes/Domain/Model/ContentCacheFlushEvent.php:82-94 | the getter returns what the setter stored and no other field changes |
| Entities.SetAffectedEntries | Classes/Domain/Model/ContentCacheFlushEvent.php:99-111 | the getter returns what the setter stored and no other field changes |
| Entities.FlushEventDateCreatedIsFixed | Classes/Domain/Model/ContentCacheFlushEvent.php:49-60 | the creation time set by the constructor survives any sequence of setter calls |
| ActivityRepository.FindAll | Classes/Domain/Repository/FullpagecacheActivityRepository.php:21 | `findAll()` returns every stored record, each as often as stored, newest first |
| ActivityRepository.GroupByCacheInfo | Classes/Domain/Repository/FullpagecacheActivityRepository.php:28-36 | one row per distinct cacheInfo value, null included; a non-null group counts its records and the null group counts 0; rows are most frequent first; the counts add up to the number of non-null records |
| ActivityRepository.UrisWithCacheInfo | Classes/Domain/Repository/FullpagecacheActivityRepository.php:48-55 | the `WHERE e.cacheInfo = :cacheInfo` selection: each uri occurs as often as there are records with that cacheInfo and uri |
| ActivityRepository.MostFrequentThenUriIsTotalPreorder | Classes/Domain/Repository/FullpagecacheActivityRepository.php:53-54 | ordering by count descending and then uri ascending is total and transitive |
| ActivityRepository.GroupByUri | Classes/Domain/Repository/FullpagecacheActivityRepository.php:44-57 | one row per distinct uri among the records with that cacheInfo, counting those records, ordered by count descending and then uri ascending |
| Tallies.Tally | Classes/Command/CacheMonitorCommandController.php:89-102 | counting names one by one yields each name seen exactly once, with the number of times it was seen, so the counts add up to the number of names listed |
| Reports.Ranking | Classes/Command/CacheMonitorCommandController.php:89-110 | the `info` ranking counts every disallowed name of one kind across all records, each name once with its number of occurrences, the counts adding up to the number of names listed, most frequent first |
| Reports.Top | Classes/Command/CacheMonitorCommandController.php:119-125 | with `--verbose` every ranked name is shown, otherwise the first ten (or all, when fewer) |
| Reports.InfoTableShowsMostFrequent | Classes/Command/CacheMonitorCommandController.php:105-125 | no name left out of the `info` table was seen more often than a name shown in it |
| Reports.MatchCount | Classes/Command/CacheMonitorCommandController.php:145-150 | the number of records that name the term is zero exactly when no record names it |
| Reports.SearchUris | Classes/Command/CacheMonitorCommandController.php:139-162 | `search` lists one uri per record naming the term, every such record's uri and no other uri |
| Reports.SearchUrisCounts | Classes/Command/CacheMonitorCommandController.php:145-150 | every uri is listed exactly as often as there are records that name the term and have that uri |
| Reports.CropUri | Classes/Command/CacheMonitorCommandController.php:177-186 | a uri of at most 120 characters is shown unchanged; a longer one keeps its first 120 characters followed by "[...]" |
| Reports.CacheInfoChoiceRoundTrip | Classes/Command/CacheMonitorCommandController.php:172-175 | the first word of the label "SKIP (12)" is the cacheInfo it was built from, for any cacheInfo without a space |
| Reports.UrisTableRows | Classes/Command/CacheMonitorCommandController.php:169-188 | the `uris` table for a chosen label has one row per uri group of that cacheInfo, with the group's count, in the group order, no uri cell longer than 125 characters and short uris unchanged |
| Reports.FlushEventChoices | Classes/Command/CacheMonitorCommandController.php:200-229 | the offered events are, in order, exactly those that pass the tag filter (no filter for a falsy tag; otherwise the tag is recorded and its counts sum above the threshold) and, without `--verbose`, affected at least one entry |
| Reports.FlushEventChoicesCounts | Classes/Command/CacheMonitorCommandController.php:203-221 | an event that passes both filters is offered as often as it occurs in `findAll()`, any other event not at all |
| Reports.SelectedIdentifierRoundTrip | Classes/Command/CacheMonitorCommandController.php:221-238 | the identifier written in brackets at the start of a choice is read back by the bracket pattern, for any identifier without ']' or a line break |
| Reports.AuditHeadersFitRows | Classes/Command/CacheMonitorCommandController.php:244-263 | the headers are "Tag(s) to flush" and then one title per configured cache, so every row has exactly one cell under each header, and the cell under cache k's title is that tag's recorded count for cache k, or 0 |
| Reports.AuditCellsAreStoreCounts | Classes/Command/CacheMonitorCommandController.php:244-258 | for an event whose counts `logCacheFlush` recorded, every cell is the entry count its cache held under the sanitized tag when the flush was logged, and a flushed tag keeps its row exactly when `--verbose` is given or one of those counts is non-zero |
| Reports.AuditRows | Classes/Command/CacheMonitorCommandController.php:243-259 | one row per flushed tag, each tag once, kept exactly when `--verbose` is given or its cells do not sum to 0, ordered by tag |
| Reports.AuditRowCells | Classes/Command/CacheMonitorCommandController.php:244-258 | every row has one cell per configured cache, holding that tag's recorded count for the cache or 0 |
| TagDecoder.WorkspaceFromTag | Classes/Command/CacheMonitorCommandController.php:368-376 | the workspace found is the first in repository order whose name hashes to the tag with its '%' padding trimmed; none is found exactly when no name does |
| TagDecoder.Decode | Classes/Command/CacheMonitorCommandController.php:298-352 | the tag's first '_' part decides: an unknown prefix is reported, "Everything" flushes everything, and otherwise two parts give a node type or node identifier and three parts add the workspace; never both a node type and an identifier |
| TagDecoder.DecodeEncodeTag | Classes/Command/CacheMonitorCommandController.php:300-349 | decoding a tag built from a valid prefix, an optional padded workspace hash and a name gives back the prefix, the workspace whose name has that hash, and the name |
| TagDecoder.DecodeNodeTypeTag | Classes/Command/CacheMonitorCommandController.php:331-339 | "NodeType_MyType" decodes to a node type name with no workspace |
| TagDecoder.DecodeUnknownPrefix | Classes/Command/CacheMonitorCommandController.php:307-319 | any tag whose text before the first underscore (or whole text, without one) is not one of the six known prefixes is reported as that invalid prefix, whatever follows it |
| TagDecoder.DecodeEverything | Classes/Command/CacheMonitorCommandController.php:321-328 | "Everything" decodes as flushing everything |
| TagDecoder.DecodeDescendantOfLive | Classes/Command/CacheMonitorCommandController.php:341-349 | a three-part DescendantOf tag with the hash of "live" decodes to the live workspace and a node identifier |
| Explode.SplitJoin | Classes/Command/CacheMonitorCommandController.php:300 | exploding parts joined by the delimiter gives the parts back when none contains it |
| Explode.JoinSplit | Classes/Command/CacheMonitorCommandController.php:175 | joining the exploded parts with the delimiter gives the string back |

## Left out

- Persistence: `add`, `persistAll`, `removeAll`, `countAll`, `findByIdentifier` and the persistence identifier are not modelled; a recorded event is the value returned, and the stored records are a given sequence.
- ContentCacheFlushEventRepository only declares an ordering by creation time; `findAll()` of flush events is the given sequence in that order.
- The aspect framework: the intercepted middleware, request, response and flusher are replaced by the values the advices read from them (method, uri, parameter keys, first `X-FullPageCache-Info` header, tags and workspaces to flush).
- The flush reasons stored as the values of `tagsToFlush`, and the values of `workspacesToFlush`, are not modelled; both are sequences of their keys.
- `CacheManager::getCache` and `getByTag` are the `storeCount` parameter; a missing cache, which throws in the package, is not modelled.
- MD5 and `Uuid::isValid` are parameters; the node lookup and node output that follow a decoded identifier are not modelled, and neither is the `if ($nodeTypeName)` display test.
- Console output is not modelled: markup, table rendering, the interactive `select`, `exit`, the "currently disabled" marker in `info`, and date formatting (the rest of a flush-event choice line is an abstract string).
- The configuration's shape is not modelled: a configured cache is an identifier and a column title, already resolved from `identifier`, `name` or the plain string.
- `in_array` compares loosely in PHP ("1" equals "01"); the model compares names exactly.
- PHP turns numeric-string array keys into integers, and `ksort` then compares them numerically; the model keys by string and orders tags lexicographically by character code.
- `strlen` and `substr` count bytes; the model counts characters.
- PHP 8.2 or later is assumed: `strpos` with an empty needle returns 0 only from PHP 8.0, and `strtoupper` ignores the locale only from PHP 8.2.
- The 4000-character uri column limit is not enforced on records.
- The order among equal counts in `info` and among equal counts of `groupByCacheInfo` is not stated (only that counts do not increase); the stable sort used fixes one.
- Fields left null until set (uri, parameter lists, arrays) start as empty values; cacheInfo keeps null because queries distinguish it.
- The package records full-page activity under two class names; both are the one `Activity` record here.
- "Everything" is taken as the value of `ContentCache::TAG_EVERYTHING`.
- Reports.SearchUris: states how many uris are listed, which, and how often each (with Reports.SearchUrisCounts), not that they follow record order.
- ActivityRepository.GroupByUri: assumes a binary collation, so `WHERE e.cacheInfo = :cacheInfo`, `GROUP BY uri` and `ORDER BY uri` compare characters exactly and order by character code; under a case-insensitive collation the database would merge "/Page" and "/page" into one group and order ties without regard to case.
- ActivityRepository.GroupByCacheInfo: assumes the same binary collation for `GROUP BY cacheInfo`.
