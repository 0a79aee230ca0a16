# URL shortener: shortlink and visit-statistics tables

A Dafny model of the core of a small URL-shortening service. The service
stores shortlinks (a random UUID mapped to a long URL) and names each one by
a slug, which is the UUID encoded in base 57. Each visit updates a
per-shortlink statistics row (a visit count and the latest visit time), and
the service answers two queries: the statistics of one shortlink, and the
top shortlinks by visits or by last visit.

Modules, one per file:

- `Wrappers` (`wrappers.dfy`): the `Option` type.
- `SlugCodec` (`slug_codec.dfy`): the slug codec. The service calls the
  third-party `shortuuid` library, whose code is not part of this model.
  This module stands in for the library's default scheme. A UUID is a
  128-bit integer, written in base 57 over the alphabet
  `23456789ABCDEFGHJKLMNPQRSTUVWXYZabcdefghijkmnopqrstuvwxyz`, most
  significant digit first. It is left-padded with the zero digit `2` to 22
  characters. Decoding reads the digits back. It fails on a character
  outside the alphabet, or on a value of 2^128 or more. The round trip that
  the service relies on is proved here, not assumed.
- `ShortlinkModels` (`shortlink_models.dfy`): the `Shortlink` record and the
  two values derived from it, `Slug` (the encoded id) and `ShortUrl` (the
  service root, `/`, then the slug).
- `ShortlinkService` (`shortlink_service.dfy`): the shortlink table. Looking
  up a slug (`FromSlug`) and loading rows in batch (`GetByIds`) are functions
  over the table's value. `ShortlinkTable` is a class whose `Create` method
  adds a row.
- `Stats` (`stats.dfy`): the statistics table. `Upsert` is the
  insert-or-update statement. `StatsTable.RecordVisit` applies it in place.
  `FromModels` and `GetShortlinkStats` are the read path, with defaults for
  a missing row. `GetTopStats` is the top-N query. There are also lemmas
  about histories of visits and about what the ranked query may return.
- `Scenarios` (`scenarios.dfy`): a client that uses only the contracts
  above. It shortens a URL, resolves its slug, records two visits in reverse
  time order, and reads back 2 visits at the later time.

Inputs from outside the core are parameters:
- the generated UUID and the creation time (`Create`);
- the visit time (`RecordVisit`);
- the configured service root (`ShortUrl`, `FromModels`);
- the rows the database returns for `ORDER BY … DESC LIMIT` (`GetTopStats`).

Timestamps are integers, compared with `<`. A missing statistics row reads
as "never visited": 0 visits and no last visit. The metric choice
(`StatMetric`, stats/service.py:39-43 and 105) becomes the datatype
`StatMetric` and the function `Rank`.

Behaviour of note:
- Decoding fails only on a character outside the alphabet, or on a value of
  2^128 or more. Every other string decodes.
- The empty string reads as the value 0, so it decodes to the all-zero UUID.
- Any string of fewer than 22 alphabet characters decodes, because its value
  is below 57^21, which is less than 2^128. `from_slug` then looks the
  decoded id up like any other.
- The foreign key from `shortlinkstat.shortlink_id` to `shortlink.id`
  (stats/models.py:10) is modelled. A visit to an id with no shortlink is
  refused and changes nothing.
- A generated id that is already a primary key makes `create` fail and
  leave the table unchanged. The model does not assume such a clash is
  impossible.
- On both of these failures the source raises. A primary-key clash raises
  from the commit in `create` (shortlinks/service.py:44). A foreign-key
  violation raises from the statement in `record_visit`
  (stats/service.py:67). The model turns each raise into a result, `None`
  from `Create` and `ok == false` from `RecordVisit`. In both cases the
  table is left unchanged, as a rolled-back transaction leaves it.

## Model

| member | source | states |
|---|---|---|
| SlugCodec.CharOf | shortlinks/models.py:26-29 | each of the 57 digit values is spelled by a character that reads back as that same digit |
| SlugCodec.EncodeShape | shortlinks/models.py:26-29 | every slug is exactly 22 characters long and made only of alphabet characters |
| SlugCodec.DecodeEncode | shortlinks/service.py:25-29 | decoding the slug of any 128-bit id gives back that id (the round trip) |
| SlugCodec.EncodeInjective | shortlinks/models.py:26-29 | two different ids never share a slug |
| SlugCodec.DecodeRejectsForeignChar | shortlinks/service.py:25-28 | a string with a character outside the alphabet at any position does not decode |
| SlugCodec.DecodeRejectsOutOfRange | shortlinks/service.py:25-28 | the 128-bit range check is reachable at slug width: the 22-character string of `z`s is well-formed, but its value, 57^22 - 1, is 2^128 or more, so it does not decode |
| ShortlinkModels.Shortlink.Slug | shortlinks/models.py:26-29 | the slug of every shortlink has the fixed length of 22 characters, whatever its id |
| ShortlinkModels.Shortlink.ShortUrl | shortlinks/models.py:31-35 | the short URL is the service root, then `/`, then the slug, so it ends with the slug |
| ShortlinkModels.SlugRoundTrip | shortlinks/models.py:26-29 | a shortlink's slug decodes to that shortlink's id |
| ShortlinkModels.SlugIdentifiesId | shortlinks/models.py:26-29 | two shortlinks have the same slug exactly when they have the same id |
| ShortlinkService.Get | shortlinks/service.py:29 | a primary-key lookup (of a shortlink, or of a statistics row at stats/service.py:127) returns the stored row when the id is present and None otherwise |
| ShortlinkService.FromSlug | shortlinks/service.py:14-29 | the result is a shortlink exactly when the slug decodes to an id that has a row; the row stored under the decoded id is returned, and its id is the decoded one |
| ShortlinkService.FromSlugOfStored | shortlinks/service.py:25-29 | resolving the slug of a stored shortlink returns that same shortlink |
| ShortlinkService.FromSlugOfUnknown | shortlinks/service.py:29 | a well-formed slug of an id with no row resolves to None |
| ShortlinkService.FromSlugOfMalformed | shortlinks/service.py:25-28 | a slug with a character outside the alphabet resolves to None, with no error |
| ShortlinkService.GetByIds | shortlinks/service.py:48-60 | the keys of the result are exactly the requested ids that have a row, and each maps to its stored row |
| ShortlinkService.ShortlinkTable.Create | shortlinks/service.py:32-45 | with a fresh id, exactly one row is added, carrying the given URL, id and creation time; it has no URL deduplication, so its id differs from every existing row's; with an id already in use, the table is unchanged and None is returned (where the source raises from the commit) |
| Stats.FromModels | stats/service.py:27-36 | a missing shortlink gives empty slug and URLs (and only then is the slug empty); a missing row gives 0 visits and no last visit; otherwise the row's counters are copied |
| Stats.GetShortlinkStatsReads | stats/service.py:116-128 | the stats of a shortlink carry its slug, short URL and long URL, its visit count (0 without a row) and its last visit (None without a row) |
| Stats.NeverVisitedReadsZero | stats/service.py:127-128 | a shortlink with no statistics row reads as 0 visits and no last visit, with its own slug: never visited is not an error |
| Stats.Upsert | stats/service.py:67-79 | a visit adds `id` to the table's keys, leaves every other row as it was, and keeps one row per shortlink |
| Stats.FirstVisitCreatesRow | stats/service.py:68-71 | with no row, a visit creates exactly one row, with 1 visit and the given time |
| Stats.LaterVisitMergesRow | stats/service.py:72-78 | with a row, a visit adds exactly one to the count, sets the last visit to the later of the stored and given times, and adds no row |
| Stats.UpsertAsRead | stats/service.py:68-78 | as seen through a read, every visit adds one to the count and makes the last visit the later of the old one (absent counts as earliest) and the new one; other shortlinks read the same as before |
| Stats.UpsertMonotone | stats/service.py:72-78 | no count goes down and no last visit moves backwards, on any row |
| Stats.UpsertCommutes | stats/service.py:68-78 | two visits, to the same or different shortlinks, give the same table in either order |
| Stats.TwoFirstVisits | stats/service.py:68-78 | two visits to a shortlink with no row give 2 visits at the later of the two times, in either order |
| Stats.ReplayReads | stats/service.py:68-78 | after any sequence of visits, each shortlink's count has grown by its number of visits, and its last visit is the latest time ever submitted for it |
| Stats.ReplayOrderIrrelevant | stats/service.py:68-78 | two histories that hold the same visits (as a multiset) give the same table, whatever order they were processed in |
| Stats.StatsTable.RecordVisit | stats/service.py:50-85 | a visit to an existing shortlink applies the insert-or-update in one step; a visit to an unknown id is refused by the foreign key and changes nothing (the source raises; the model reports `ok == false`); every row still refers to a shortlink afterwards |
| Stats.TopSelectionExists | stats/service.py:105-107 | for every table, metric and limit, some list satisfies the ranked-query contract: min(limit, rows) distinct rows of the table, in non-increasing order of the metric, with no omitted row ranked above a returned one |
| Stats.TopSelectionLeadsWithMax | stats/service.py:105-107 | the first row returned has the highest metric in the table |
| Stats.TopSelectionRanksAgree | stats/service.py:105-107 | equal metric values may come in any order, but any two valid results hold the same metric value at every position |
| Stats.GetTopStats | stats/service.py:88-114 | one result per selected row, in the same order; each carries the row's visits and last visit and the slug and URLs of the shortlink with that id, or empty strings when that shortlink is missing; there are at most `limit` results, in non-increasing order of the chosen metric |
| Stats.ResultsFollowRows | stats/service.py:110-113 | results built row by row carry each row's counters, keep the rows' order by the metric, and have a non-empty slug exactly when the shortlink exists |
| Stats.TopStatsWithReferences | stats/models.py:10 | when every statistics row refers to an existing shortlink, every selected row finds its shortlink, so the empty-string fallback is never used |

## Left out

- HTTP routes, status codes (201, 307, 404, 422), and request validation
  (URL schemes, the 0..100 bound on `limit`) are not modelled. The model
  takes `limit` as any natural number.
- Sessions, commits and transactions are not modelled. Each operation is
  one atomic step on the table's value.
- Real concurrency and transaction isolation are not modelled.
  `RecordVisit` is a single sequential step. The order-independence lemmas
  state what that atomic upsert guarantees about interleavings.
- The fire-and-forget background task that records a visit after a redirect
  is not modelled. That is route plumbing.
- Storage errors other than the two table constraints are not modelled.
  The two modelled constraints are a primary-key clash on create and the
  foreign key on a visit.
- Of the `shortuuid` library, only its default alphabet and fixed width are
  modelled. Custom alphabets, the legacy reversed mode and non-string input
  are not part of this model.
- Stats.Upsert: does not model the 32-bit range of the `visits` column,
  because counts are unbounded naturals here. A database overflow after
  2^31 - 1 visits is not represented.
- Timezone-aware datetimes are modelled as integer timestamps, because only
  their order is used.
- `get_settings` is a parameter: the service root is passed explicitly.
- The random UUID generator and the clock are parameters of `Create`.
- The memoisation of `cached_property` is not modelled. `Slug` and
  `ShortUrl` are functions of the record, so repeated reads are equal by
  construction.
- The ordering by the database is not modelled. The rows returned by
  `ORDER BY … DESC LIMIT` are a parameter of `GetTopStats`, constrained by
  `IsTopSelection`. That predicate leaves the order among equal metric
  values open, as the query does. `TopSelectionExists` shows it can always
  be met.
- The older `src/` draft, migrations, configuration loading and the load-test
  script are not part of this model.
