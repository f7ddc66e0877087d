# Jamaat prayer times, modelled in Dafny

Jamaat publishes the prayer times of local mosques. The backend holds one row
per mosque in the `prayer_times` table. A scheduled job refreshes the table. A
`GET /prayer-times` endpoint joins the stored rows with the mosque registry.
The frontend shows one row per prayer, with a status of available, finished
or none.

This project models those three parts and proves properties about them.

- `common.dfy` (`Common`): `Option` and a JSON-like `Value`, with `Dict` as a
  string-keyed map.
- `digits.dfy` (`Digits`): zero-padded decimal text and how to read it back.
- `prayer_times_model.dfy` (`PrayerTimesModel`): the `PrayerTimes` row and
  `to_dict`. It renders `str(time)`, `date.isoformat()` and
  `datetime.isoformat()` and reads them back. The row has a required date and
  sixteen optional times (`Option<TimeOfDay>`, absent unless given), which is
  the schema's nullability. The serializer is a map over a `RecordKey` enum
  of the 19 keys.
- `table.dfy` (`Table`): the table.
  - It is given as a value, `TableState`: rows by primary key, plus the order
    `query.all()` returns them in.
  - It is also given as the class `PrayerTimesTable`, whose `DeleteAll` and
    `Merge` reassign its fields.
  - `Keyed` is the primary-key invariant.
- `app.dfy` (`App`): the endpoint, as `GetPrayerTimes` with its loop, proved
  against the `Join` function. Also the mock job, as `MockScrapeAndUpdate`:
  a delete, then a loop of merges.
- `status.dfy` (`PrayerStatus`): `getStatus`, the "None" case of
  `formatTime`, and how one row's cells are chosen.

Inputs the code takes from outside are parameters:

- the registry `MOSQUES`, as `seq<Dict>`;
- the job's four clock readings: one `date.today()` and one `datetime.now()` call per fixture row;
- JavaScript's date parser, as `parse: string -> Option<int>` (epoch
  milliseconds, or `None` for NaN);
- the current `Date`, as an `Instant` (epoch milliseconds plus the local
  wall-clock reading);
- the locale formatter behind `toLocaleTimeString`.

`ReadsWallClock(parse, offset)` is the general assumption about the parser:
`"1970-01-01T" + HH:MM:SS` is read as that local time on 1970-01-01.
`FallbackFinishedAfterEpochDay` adds one more, about its own string only:
the fallback reading of that string lies before the end of local
1970-01-01 (`parse(FallbackPrefix + iqamah).value < offset + 86400000`).
`CanonicalParserReadsWallClock` shows that a parser meeting it exists.

`getStatus` returns exactly one of three values. That is true by
construction, because the result type `Status` has exactly three
constructors.

## Model

| member | source | states |
|---|---|---|
| Digits.ZeroPadRoundTrip | backend/models/prayerTimes.py:45-60 | The zero-padded two- or six-digit fields that `str(time)` writes read back to the number written. |
| PrayerTimesModel.TimeRoundTrip | backend/models/prayerTimes.py:45-60 | `str(time)` (`HH:MM:SS`, plus `.ffffff` only for a non-zero microsecond) parses back to the same hour, minute, second and microsecond. |
| PrayerTimesModel.WholeSecondTimeText | backend/models/prayerTimes.py:45-60 | For a whole-second time, `str(time)` is exactly eight characters `HH:MM:SS`, and its three two-digit fields read back to the hour, minute and second. |
| PrayerTimesModel.DateRoundTrip | backend/models/prayerTimes.py:44 | `date.isoformat()` (`YYYY-MM-DD`) parses back to the same date. |
| PrayerTimesModel.DateTimeRoundTrip | backend/models/prayerTimes.py:61 | `updated_at.isoformat()` (date, `T`, time) parses back to the same timestamp. |
| PrayerTimesModel.KeyNameInjective | backend/models/prayerTimes.py:42-62 | The 19 dictionary keys are pairwise distinct: each key name determines its column. |
| PrayerTimesModel.ToDictAt | backend/models/prayerTimes.py:42-62 | Every one of the 19 keys is present in `to_dict()` and holds the value written for its column. |
| PrayerTimesModel.ToDictName | backend/models/prayerTimes.py:43 | `"mosque_name"` holds the row's name unchanged. |
| PrayerTimesModel.ToDictFields | backend/models/prayerTimes.py:43-61 | The name passes through and the date and `updated_at` are ISO text. A time column's entry depends on that column alone: null when absent, `str(time)` when present. |
| PrayerTimesModel.SerializeTimeRoundTrip | backend/models/prayerTimes.py:45-60 | A time column serializes to null if and only if it is absent, and the serialized value reads back to the column. |
| PrayerTimesModel.ToDictRoundTrip | backend/models/prayerTimes.py:40-62 | `to_dict` loses nothing: reading the dictionary back gives the same row. |
| PrayerTimesModel.ToDictKeys | backend/models/prayerTimes.py:42-62 | The dictionary's keys are exactly the 19 names of the dictionary literal: `mosque_name`, `date`, the sixteen `{prayer}_start`/`{prayer}_iqamah` names and `updated_at`. |
| PrayerTimesModel.ToDictKeyCount | backend/models/prayerTimes.py:42-62 | `to_dict()` has exactly 19 keys. |
| Table.RecordsOf | backend/app.py:17 | `query.all()` returns one row per listed key. |
| Table.UpsertKeyed | backend/app.py:78 | One `merge` keeps the primary-key invariant. It stores the new row under its name and leaves every other row as it was. |
| Table.UpsertAllKeyed | backend/models/prayerTimes.py:9 | Any sequence of merges keeps the primary-key invariant: each name once, each row filed under its own name. |
| Table.UpsertAllKeys | backend/app.py:77-78 | After merging, a name is stored if and only if it was stored before or some merged record has it. |
| Table.UpsertAllAbsent | backend/app.py:77-78 | A name that neither the table nor any merged record has stays absent. |
| Table.UpsertAllLaterWins | backend/app.py:77-78 | For a name merged more than once, the last record with that name is the one stored. |
| Table.UpsertAllKeepsOthers | backend/app.py:77-78 | A stored row whose name no merged record has is left unchanged. |
| Table.PrimaryKeyUnique | backend/models/prayerTimes.py:9 | `query.all()` returns exactly one row for each stored name and none for any other name. |
| Table.RecordsAt | backend/models/prayerTimes.py:9 | The i-th row returned is the row stored under the i-th key, and it carries that key as its name. |
| Table.UpsertNewAppends | backend/app.py:78 | Merging a record under a new name appends it to what `query.all()` returns. |
| Table.UpsertAllIntoEmpty | backend/app.py:38-78 | Merging records with distinct names into an empty table stores exactly those records, returned in merge order. |
| Table.PrayerTimesTable.constructor | backend/app.py:96 | A table that `db.create_all()` creates because it did not exist yet is empty and keyed. |
| Table.PrayerTimesTable.DeleteAll | backend/app.py:38 | `query.delete()` leaves the table empty and keyed. |
| Table.PrayerTimesTable.Merge | backend/app.py:78 | `session.merge(r)` keeps the table keyed, and the new state is the upsert of `r` into the old state. |
| App.FindFrom | backend/app.py:22 | The generator's scan from entry i on. It returns the first entry named `key` (all earlier entries are named otherwise), not found (every entry is named otherwise), or the first entry lacking `"name"`, where `KeyError` is raised. |
| App.FindMosque | backend/app.py:22 | `next(...)` gives the first registry entry whose name matches. It gives `None` if and only if every entry has a different name. It raises at the first entry without a name. |
| App.FindMosqueFirst | backend/app.py:22 | When every entry has a name, the lookup returns the lowest-indexed entry named `key`, even when later entries share that name. |
| App.MergedFields | backend/app.py:24-28 | `{**mosque, "prayer_times": t}` keeps every registry field. It sets `"prayer_times"` to the serialized row, overriding a registry field of that name, and adds no other key. |
| App.Serialize | backend/app.py:18 | `[t.to_dict() for t in times]` preserves length and order. |
| App.SerializeNames | backend/app.py:18-22 | Each serialized row has `"mosque_name"`, holding its record's name, which is the value the lookup compares with. |
| App.JoinStep | backend/app.py:21-29 | Handling one more row extends the response so far by that row's contribution. |
| App.JoinPrefixFails | backend/app.py:22 | Once a lookup raises, the whole request raises. |
| App.JoinTotal | backend/app.py:21-29 | When every registry entry has a name, the request never raises. |
| App.JoinLength | backend/app.py:19-29 | The response never has more entries than there are stored rows. |
| App.Kept | backend/app.py:21-23 | The positions of the rows whose name is in the registry, in increasing order. The set is exact: every such row is included and no other. |
| App.JoinIsFilter | backend/app.py:17-29 | The response is a filter over the rows in row order: one entry per matched row, merged from the first registry entry of that name, and nothing for unmatched rows. |
| App.ResponseNamesDistinct | backend/app.py:17-29 | With the table keyed by `mosque_name` (backend/models/prayerTimes.py:9), two different response entries always carry different `"name"` values: a site appears at most once. |
| App.ResponseHasSite | backend/app.py:17-29 | A stored row whose name some registry entry has appears in the response under that name, so with `ResponseNamesDistinct` each such site appears exactly once. |
| App.JoinEntriesFromRows | backend/app.py:17-28 | Every response entry is named after a stored row's mosque and carries that row's `to_dict()`. A registry entry with no stored row never appears. |
| App.GetPrayerTimes | backend/app.py:15-31 | The endpoint's loop returns exactly `Join` of the serialized rows of `query.all()`, or `None` when a lookup raises. |
| App.MockStartsBeforeIqamah | backend/app.py:40-75 | In both fixture rows, the five daily prayers and Jummah 1 have a start strictly earlier than their iqamah. Jummah 2 and 3 are absent. |
| App.MockJobResult | backend/app.py:38-79 | After the job, the table holds exactly the two fixture rows in merge order. Its key set is {Baitul Aman, Baitul Mukarram}. |
| App.MockScrapeAndUpdate | backend/app.py:33-81 | Whatever the table held, after the delete and the merge loop it is keyed and equals the fixtures merged into an empty table. Earlier rows for other names are gone. |
| PrayerStatus.ClockText | frontend/src/prayerTimes.tsx:112-114 | `toTimeString().slice(0, 8)` is eight characters that read back as `HH:MM:SS` to the local hour, minute and second, with sub-second parts dropped. |
| PrayerStatus.GetStatus | frontend/src/prayerTimes.tsx:99-117 | The status is `Default` if and only if the iqamah is null or empty, or neither the `T`-separated reading nor the space-separated fallback reading succeeds. |
| PrayerStatus.CanonicalParserReadsWallClock | frontend/src/prayerTimes.tsx:103 | At least one parser reads `1970-01-01THH:MM:SS` as that local wall-clock time, so the assumption is consistent. |
| PrayerStatus.AvailableIffBeforeReading | frontend/src/prayerTimes.tsx:103-116 | For any non-empty iqamah text the first reading accepts, the status is `Available` if and only if the current wall-clock second, read on 1970-01-01, is strictly before that reading, and `Finished` otherwise. |
| PrayerStatus.AvailableIffEarlier | frontend/src/prayerTimes.tsx:103-116 | For an iqamah time written as `str(time)` writes a whole-second time, the status is `Available` if and only if the current wall-clock second is strictly earlier in the day, and `Finished` otherwise. |
| PrayerStatus.AtIqamahIsFinished | frontend/src/prayerTimes.tsx:116 | At the iqamah second itself the status is `Finished`. |
| PrayerStatus.FinishedStaysFinished | frontend/src/prayerTimes.tsx:112-116 | Within a day, for any iqamah text the first reading accepts, once a prayer is `Finished` it stays `Finished` at every later wall-clock time. |
| PrayerStatus.SubsecondIrrelevant | frontend/src/prayerTimes.tsx:112-116 | When the first reading succeeds, only the current wall-clock second matters. The milliseconds and the absolute time do not. |
| PrayerStatus.FallbackFinishedAfterEpochDay | frontend/src/prayerTimes.tsx:105-109 | For a reader of local 1970-01-01 wall-clock times, a string only the fallback accepts and read as an instant on that day is compared with the absolute current time, and so is `Finished` for any current time after that day. |
| PrayerStatus.FieldText | frontend/src/prayerTimes.tsx:59 | `prayer_times[key]` gives a string exactly when the key is present with a string value, and then it is that stored string. Null or a missing key gives nothing. |
| PrayerStatus.StoredFieldText | frontend/src/prayerTimes.tsx:59 | For a stored row's `to_dict()`, `prayer_times[key]` gives nothing for an empty column and otherwise exactly the `str(time)` the backend wrote. |
| PrayerStatus.FormatTime | frontend/src/prayerTimes.tsx:119-130 | A null or empty time is shown as "None". Otherwise the time is read on 1970-01-01 and passed to the locale formatter. |
| PrayerStatus.Row | frontend/src/prayerTimes.tsx:57-87 | A prayer's status cell is the status of its iqamah column. A missing start or iqamah is shown as "None", and a missing iqamah has `Default` status. |
| PrayerStatus.StartIqamahNamesDiffer | frontend/src/types.tsx:50-59 | Each prayer's start and iqamah keys are different names. |
| PrayerStatus.StatusIgnoresStart | frontend/src/prayerTimes.tsx:58-59 | A row's status does not change whatever its start column holds. Only the iqamah column is read. |
| PrayerStatus.StoredRowStatus | frontend/src/prayerTimes.tsx:99-116 | For a stored row's `to_dict()`, a missing iqamah gives `Default`. A whole-second iqamah gives `Available` exactly while the current wall-clock second is earlier, and `Finished` from then on. |

## Left out

- Flask routing, `jsonify` and config; `create_app`'s wiring; the `BackgroundScheduler` and `atexit` hooks; and the job's log lines. These are HTTP plumbing, timing and output with no logic of their own.
- SQLAlchemy internals. The table is a map with delete-all and merge. `commit` changes nothing here, because the model has no transactions or other sessions. `merge` is modelled as replacing the stored row with the given one. SQLAlchemy's `merge` copies only the attributes set on the given object, so whole-row replacement is exact only for an insert or for an object that sets every column; `Upsert`, `UpsertKeyed` and `UpsertAllLaterWins` describe whole-row replacement. The job empties the table first and its fixtures have distinct names, so each merge in the job is an insert and the model is exact there.
- The order of `query.all()`: SQL leaves it unspecified, and the model uses first-insertion order.
- The `updated_at` default and `onupdate` (`datetime.utcnow`). The job always sets the column, so the model makes it a required timestamp. A NULL `updated_at` would make `to_dict` raise; that case is not modelled.
- The registry `MOSQUES` lives in `backend/mosques.py`, which is not part of this model. It is an input; an entry without `"name"` raises `KeyError`, and that case is modelled.
- `if mosque:`: a matched registry entry always holds `"name"`, so it is never an empty (falsy) dictionary. The test is therefore not a separate branch.
- Key order in the dictionaries and in the JSON output: `Dict` is an unordered map.
- The real scraper, the LLM call and the text cleaning. The repository's job is a mock with fixed records, and the model covers only that.
- `date.today()` and `datetime.now()` are parameters, one of each per fixture row. The model does not relate the readings to each other.
- JavaScript `Date` parsing is the abstract parameter `parse`. Its meaning is assumed through `ReadsWallClock`, for canonical whole-second strings on 1970-01-01, and, in `FallbackFinishedAfterEpochDay` only, through that lemma's hypothesis that the fallback reading of its one string lies before the end of local 1970-01-01. 12-hour strings with AM/PM and fractional seconds get no meaning beyond what `parse` returns for them.
- PrayerStatus.AvailableIffEarlier: stated in wall-clock seconds only for whole-second iqamah texts. The backend writes `HH:MM:SS.ffffff` for other times; for those, `AvailableIffBeforeReading` compares with whatever the first reading returns, since how JavaScript reads that form is not modelled.
- PrayerStatus.StoredRowStatus: inherits the whole-second restriction of `AvailableIffEarlier` for the available/finished half.
- `formatTime`'s locale rendering (`toLocaleTimeString`), which is a parameter, and `formatUpdatedAt` (`Intl.DateTimeFormat`): foreign library formatting.
- Which prayers the table lists (`Object.values(Prayer)`). `types.tsx` does not export `Prayer`, so rows are modelled one prayer at a time.
- React rendering, styling, the loading and error states, the timer hook and the fetch hook.
- `FieldText` treats any non-string JSON value as missing. The backend sends only strings and null in these columns.
