# train-ranking ingestion and consolidation, in Dafny

This project models the batch data pipeline of train-ranking, which ranks railway operators by
punctuality (PPM, the public performance measure).

- **Feed listener** (`train_app/data.py`). A decoded RTPPM message becomes one record per
  operator entry. Each record is `(name, ppm, date, time)`, and all records of a message share
  the UTC date and time of the message's `snapshotTStamp` in milliseconds. `on_message` appends
  the records to the CSV log `train_data.csv`.
- **Consolidation** (`rail_rank/db.py`). `load_ppm_data` reads the log and keeps the latest
  `record_time` per `(name, record_date)`. `save_ppm_data` inserts unseen operator names, swaps
  names for ids, drops incomplete rows, appends to `performance`, commits, and then deletes the
  log. `prune_database` deletes, in every `(operator, record_date)` group with more than one row,
  the rows whose time is below the group's latest time. It then checks again and commits only if
  no group still has more than one row.
- **Permissive consolidation** (`train_app/cron.py`). The same merge without deduplication,
  without the check, and without deleting the log.

Modules, one per concern:

- `Wrappers`: `Option`, `Result`.
- `TextOrder`: Python's `str` ordering.
- `CivilTime`: milliseconds to a proleptic-Gregorian UTC date and time of day.
- `IsoText`: `str(datetime)` text and `str.split`.
- `CsvLog`: the log file as a class, and `pd.read_csv` of it.
- `FeedMessage`: `data.py`.
- `Tables`: the two tables and their transaction, as a class.
- `Dedup`: the db.py `load_ppm_data`.
- `Merge`: the name-to-id mapping shared by both saves.
- `Consolidate`: the db.py `save_ppm_data`.
- `Prune`: `prune_database`.
- `Cron`: cron.py.

The store is a `Database` object. It holds working `operators` and `performance` sequences and
their committed copies. Statements change the working copies, and `Commit` copies them over. The
log is a `LogFile` object with a `present` flag and its lines.

Behaviour of the code worth knowing, which the model keeps:

- A missing log makes both saves fail with `FileNotFound`, and an empty log makes them fail with
  pandas' `EmptyData`. Neither is a successful no-op.
- When the latest time of a group is shared by two rows, `prune_database` keeps both and fails
  with nothing committed. It does not collapse the group to one row (`Prune.TiedRowsSurvive`).
- Saving the same rows twice appends them twice, because no step looks at the existing
  `performance` rows (`Cron.SaveTwice`).
- In `train_app/cron.py` the log is read before the existence check, so that check can never
  fire. `Cron.SavePpmData` marks the branch as unreachable.

## Model

| member | source | states |
|---|---|---|
| FeedMessage.ParseOperatorData | train_app/data.py:76-81 | succeeds iff the entry has `name`, `PPM` and `PPM.text`, giving the name and the PPM text; otherwise a `KeyError` for a key that is really missing, `name` first |
| FeedMessage.ParseEntries | train_app/data.py:76-81 | succeeds iff every entry has `name` and `PPM.text`; then one record per entry, in order, with that entry's name and PPM text and the shared date and time; otherwise the error of some entry |
| FeedMessage.GetTimestamp | train_app/data.py:84-90 | succeeds iff `RTPPMData.snapshotTStamp` is present, is an integer, and names an instant inside Python's years; the split into two pieces never fails |
| FeedMessage.GetTimestampMeaning | train_app/data.py:84-90 | the date text reads back as the UTC civil date and the time text as the time of day; together they give back the milliseconds; the time carries `+00:00`, and a fraction iff the milliseconds are not a whole second |
| FeedMessage.GetPpm | train_app/data.py:92-98 | a timestamp error comes first; succeeds iff the timestamp, `NationalPage.Operator` and every entry's keys are present; then N entries give N records in entry order, all with one date and time |
| FeedMessage.LinesOf | train_app/data.py:59-68 | one line per record, in order, holding the cells name, ppm, date, time |
| FeedMessage.OnMessage | train_app/data.py:51-73 | never raises; an undecodable body or a missing `RTPPMDataMsgV1` leaves the log untouched; otherwise the log exists afterwards and gains all N lines when parsing succeeds, or none on an error; old lines are kept |
| FeedMessage.WriteRecords | train_app/data.py:59-68 | the loop appends exactly the lines of the records, in order, after the existing lines |
| FeedMessage.AppendThenRead | train_app/data.py:67-68 | reading the log after an append gives the old rows, then the appended records field for field in append order; an empty text reads back as missing |
| CivilTime.CivilFromDays | train_app/data.py:88 | gives a valid date that is exactly the given number of days from 1970-01-01 |
| CivilTime.CivilFromDaysRoundTrip | train_app/data.py:88 | converting a valid date to days and back gives the same date |
| CivilTime.FromTimestampMillis | train_app/data.py:88 | a result is a valid in-range datetime that stands for exactly the given milliseconds, with microseconds = (ms mod 1000) * 1000 |
| CivilTime.FromTimestampMillisComplete | train_app/data.py:88 | every in-range datetime with whole milliseconds is the result for its own milliseconds, so the conversion fails only outside Python's years |
| IsoText.DateTextRoundTrip | train_app/data.py:89 | `YYYY-MM-DD` text reads back as the date it was printed from |
| IsoText.TimeTextRoundTrip | train_app/data.py:89 | `HH:MM:SS[.ffffff]+00:00` text reads back as the hour, minute, second and microsecond it was printed from |
| IsoText.TimeTextFraction | train_app/data.py:89 | the time text has a `.` iff the microseconds are not zero |
| IsoText.DateTimeTextSplits | train_app/data.py:89 | `str(dt).split(" ")` is exactly the date text and the time text |
| CsvLog.ReadCsv | rail_rank/db.py:65 | `pd.read_csv` of the log, also at train_app/cron.py:29: a missing file is `FileNotFound`, a file without lines `EmptyData`; otherwise one row per line, in order, each cell read as its text or, when empty, as missing |
| CsvLog.LogFile.OpenForAppend | train_app/data.py:56 | the file exists afterwards and keeps all its lines |
| CsvLog.LogFile.WriteRow | train_app/data.py:67-68 | exactly one line is appended |
| CsvLog.LogFile.Unlink | rail_rank/db.py:112 | the file no longer exists and has no lines |
| TextOrder.LessTransitive | rail_rank/db.py:67 | Python string `<` is transitive, and with `LessIrreflexive` and `LessTotal` a strict total order |
| Dedup.LaterTransitive | rail_rank/db.py:67 | the descending sort order on `record_time`, with missing times last, is transitive |
| Dedup.KeepLatest | rail_rank/db.py:66-69 | the sort and `drop_duplicates`: at most one row per log row, and none only for an empty log; its meaning is the four `KeepLatest*` lemmas below |
| Dedup.KeepLatestKeysUnique | rail_rank/db.py:67-69 | after the dedup step, each `(name, record_date)` pair occurs in at most one row |
| Dedup.KeepLatestSubMultiset | rail_rank/db.py:67-69 | the kept rows are a sub-multiset of the log's rows |
| Dedup.KeepLatestSameKeys | rail_rank/db.py:67-69 | every key of the log is present among the kept rows, and every kept row is a log row |
| Dedup.KeepLatestMaximal | rail_rank/db.py:67-69 | no log row sorts ahead of the row kept for its key, so the kept time is the maximum of the group |
| Dedup.OneGroupCollapses | rail_rank/db.py:66-69 | rows that share one key collapse to exactly one of them, whose time no other row exceeds |
| Dedup.MaxGroupSize | rail_rank/db.py:71 | NaN (`None`) iff no row has both name and date; otherwise the size of some complete key's group and at least the size of every such group |
| Dedup.KeepLatestGroupSize | rail_rank/db.py:70-73 | after the dedup step the largest group size is 1, or NaN when no row has a complete key |
| Dedup.LoadPpmDataAsWritten | rail_rank/db.py:55-74 | the load as written: a read error passes through; a success is exactly the corrected load's result; any other failure is "Multiple records per day" |
| Dedup.LoadPpmData | rail_rank/db.py:55-74 | the corrected load: a read error passes through; otherwise the result is the deduplicated rows, so the duplicate check never fires |
| Dedup.LoadAsWrittenRejects | rail_rank/db.py:71-73 | as written, a readable log is rejected iff none of its rows has both a name and a date |
| Dedup.NamelessLogRejected | rail_rank/db.py:71-73 | a one-line log with an empty name cell is rejected as written and accepted by the corrected load |
| Tables.LookupId | rail_rank/db.py:91-92 | finds no id iff no operator row has the name |
| Tables.NextId | rail_rank/db.py:94 | a new id is greater than every existing id |
| Tables.AddNames | rail_rank/db.py:88-98 | the operator table after the insert loop: it grows by at most one row per name; `AddNamesKeeps`, `AddNamesCovers` and `AddNamesUnique` give its contents |
| Tables.AddNamesKeeps | rail_rank/db.py:88-98 | the insert loop keeps every existing operator row unchanged, and adds only names from the list that were missing |
| Tables.AddNamesCovers | rail_rank/db.py:88-98 | after the insert loop every name of the list has an operator row |
| Tables.AddNamesUnique | rail_rank/db.py:90-94 | the insert loop never creates a second row for a name and never reuses an id |
| Tables.AddNamesIdempotent | train_app/cron.py:44-54 | running the insert loop again over the same names inserts nothing |
| Tables.Database.InsertOperator | rail_rank/db.py:94 | appends the missing name with a fresh id and keeps names and ids unique |
| Tables.Database.EnsureOperators | rail_rank/db.py:88-98 | the operator table becomes `AddNames(old table, names)`; nothing else changes |
| Tables.Database.AppendPerformance | rail_rank/db.py:108 | the rows go after the existing rows, which are unchanged |
| Tables.Database.DeleteBelowMax | rail_rank/db.py:143-160 | the table loses exactly the rows of the group whose time is below the group's maximum, taken on the current table |
| Tables.Database.Commit | rail_rank/db.py:109 | the committed tables become the working tables |
| Tables.MaxKeyIsMax | rail_rank/db.py:150-157 | `MAX(TIME(...))` is NULL iff every time is NULL; otherwise it is one of the times and no time exceeds it |
| Merge.UniqueNamesMembers | rail_rank/db.py:88 | the distinct names are exactly the present names of the rows, each listed once |
| Merge.MapRow | rail_rank/db.py:100-106 | a row survives iff it has every field and its name has an id; it then carries that id and its own ppm, date and time |
| Merge.ToPerformance | rail_rank/db.py:103-108 | every surviving row is appended, and every appended row is the mapping of some loaded row |
| Merge.ToPerformanceAppend | rail_rank/db.py:103-108 | the mapping works row by row: the rows of a concatenation are those of each part in order, so a log row that occurs twice is appended twice |
| Merge.ToPerformanceSnoc | train_app/cron.py:56-65 | one more log row adds its own mapped row at the end, or nothing when it is dropped |
| Merge.ReconciledRowsMap | rail_rank/db.py:88-106 | after the insert loop a row is dropped iff it has a missing field, so exactly the complete rows are appended |
| Consolidate.SavePpmData | rail_rank/db.py:77-113 | a failed load changes neither the store nor the log; otherwise the operators become `AddNames(old, names)`, the new rows are appended after the old ones, both are committed, and the log is deleted |
| Consolidate.ExampleLogLoads | rail_rank/db.py:55-74 | a log with LNER at 08:00:00 and 09:15:00 and GWR at 08:30:00 on one day loads as LNER 09:15:00 and GWR |
| Consolidate.ExampleOperators | rail_rank/db.py:88-98 | on an empty operator table that save inserts LNER with id 1 and GWR with id 2 |
| Consolidate.ExampleLogSaves | rail_rank/db.py:99-108 | that save appends exactly `(1, 92, 2024-01-01, 09:15:00)` and `(2, 85, 2024-01-01, 08:30:00)` |
| Prune.DuplicateGroupsMembers | rail_rank/db.py:128-137 | the duplicate query returns exactly the joined groups with more than one row, each once |
| Prune.NoDuplicates | rail_rank/db.py:128-140 | the query returns nothing iff no joined group has more than one row |
| Prune.PruneIdempotent | rail_rank/db.py:138-140 | without duplicated groups the deletion pass removes nothing, so pruning a pruned table changes nothing |
| Prune.DeleteStep | rail_rank/db.py:142-160 | one more DELETE extends the set of rows deleted so far by exactly that group's rows below its maximum |
| Prune.Pruned | rail_rank/db.py:142-160 | the table after the deletion loop never has more rows than before; `PrunedGroup` gives its rows group by group |
| Prune.PrunedOnlyDeletes | rail_rank/db.py:142-160 | pruning only deletes: every row left is a row of the old table, at most as often |
| Prune.PrunedGroup | rail_rank/db.py:142-160 | a duplicated group keeps exactly its rows that are not below its maximum; every other group keeps all its rows |
| Prune.LatestMembers | rail_rank/db.py:145-157 | the rows a group keeps are exactly its rows at the maximum time, plus those with a NULL time |
| Prune.LatestUnique | rail_rank/db.py:145-157 | a group whose rows all have times and whose maximum is held by one row keeps that row alone |
| Prune.LatestTie | rail_rank/db.py:150-157 | two rows of a group that are not below the maximum both survive |
| Prune.PruneRecheck | rail_rank/db.py:161-174 | the check after the deletion pass passes iff every duplicated group kept at most one row |
| Prune.TiedRowsSurvive | rail_rank/db.py:142-174 | OperatorX with two rows for 2024-02-02, both at 07:00:00: both survive, and the check fails |
| Prune.LaterRowKept | rail_rank/db.py:142-175 | the same two rows at 07:00:00 and 08:00:00: only the 08:00:00 row is left, and the check passes |
| Prune.PruneDatabase | rail_rank/db.py:123-176 | without duplicates: success, nothing changed. Otherwise the table becomes `Pruned` of the old one; success iff no group has more than one row left; on success everything is committed, on failure nothing is |
| Cron.LoadPpmData | train_app/cron.py:19-31 | every log line becomes a row, in order, with the cells as name, ppm, record_date, record_time; a missing or empty file is an error |
| Cron.SavePpmData | train_app/cron.py:34-69 | a failed read leaves the store untouched; otherwise the operators become `AddNames(old, names)`, the mapped complete rows are appended, both are committed, and the log is kept |
| Cron.SaveTwice | train_app/cron.py:34-69 | running the job twice on one log: both runs fail and nothing changes when the read fails; otherwise both succeed, the operators are those after one run, and the performance table gains the mapped rows twice |

## Left out

- The STOMP connection and the listener callbacks (`train_app/data.py:23-49`, `101-141`). They
  are network I/O, logging, sleeping, process exit and an endless wait.
- JSON decoding. `OnMessage` takes the decoded body, with `None` for a body that is not JSON.
  A JSON value of the wrong type, such as an `Operator` that is not a list, is not modelled.
- CSV quoting and escaping. A cell is read back exactly as it was written.
- Logging calls everywhere.
- `CivilTime.FromTimestampMillis`: works on exact integer milliseconds. Python divides
  `int(ts) / 1000` in floating point and rounds the fraction to microseconds half to even. That
  gives the exact millisecond only while the seconds stay below 2^33 in magnitude, that is, for
  instants between about 1697 and 2242-03-16. Outside that range Python's microsecond can be off
  by one, for example `10000000000001` ms prints `.000999` where the model gives `.001000`.
- `FeedMessage.ParseInt`: accepts an optional sign and ASCII digits. The whitespace,
  underscores and non-ASCII digits that `int()` also accepts are not modelled.
- Pandas type inference. Cells stay text, so a ppm of `90` is not turned into a number. Only an
  empty cell reads as missing (NaN). Other NA spellings such as `NA` are not modelled.
- `Consolidate.SavePpmData`: loads with the corrected `Dedup.LoadPpmData`, not the load as
  written. For a log where no row has both a name and a date, the code as written raises
  "Multiple records per day" before it opens the store, so the store and the log stay as they
  were. The model instead succeeds: it commits any new operator
  names of rows that have a name but no date, appends no performance row, and deletes the log
  (see Findings).
- `Dedup.KeepLatest`: among rows with the same key and the same time, it keeps the one nearest
  the start of the log. Pandas' default sort is not stable and leaves this choice unspecified.
  The lemmas state only that the kept time is maximal.
- `Consolidate.SavePpmData`: the rows and the new names come in order of each key's first
  appearance in the log. Pandas orders them by time, latest first. So the order of appended
  rows, and which new operator gets which id, can differ. The set of rows and names is the same.
- `Merge.UniqueNames`: leaves out a missing (NaN) name. The source would look up and insert a
  NULL name, with an outcome that depends on the schema. `schema.sql` is not part of this model,
  and the rows of such a name are dropped either way.
- `Tables.NextId`: gives a new operator the largest id plus one (1 in an empty table), which is
  SQLite's rowid rule for an `INTEGER PRIMARY KEY`. The schema itself is not modelled.
- SQLite's `TIME()` is the parameter `timeKey`, with `None` for NULL. Its text normalisation is
  not modelled.
- The order "commit, then delete the log" is the statement order of `Consolidate.SavePpmData`.
  No contract states it, because the model has no crash between two statements.
- Errors raised by the store itself (a locked database, a constraint violation) are not modelled.
- Connection and schema management: `get_db`, `close_db`, `init_db`, the click commands,
  `init_app` and `create_db`. In `train_app/cron.py`, the `with sqlite3.connect(...)` block is
  modelled only through its explicit commit.
- `train_app/rankings.py`, `train_app/page.py`, `rail_rank/about.py`, `train_app/db.py` and
  `train_app/__init__.py`. These are rendering, the app factory and a ranking query, outside
  the pipeline.
- Concurrency between the listener, the consolidation job and pruning. Each operation is
  modelled as running alone.

## Findings

| source | as written | input that shows it | evidently intended | confidence | as-written member | corrected member |
|---|---|---|---|---|---|---|
| rail_rank/db.py:71-73 | `groupby(["name", "record_date"]).size().max() != 1` raises "Multiple records per day" when there is no group at all: groupby drops keys with a missing name or date, the maximum of no sizes is NaN, and NaN differs from 1 | a log whose only line is `,90,2024-01-01,08:00:00+00:00` (empty name) | fail only when some `(name, record_date)` group still has more than one row | medium, not executed | Dedup.LoadPpmDataAsWritten, Dedup.NamelessLogRejected | Dedup.LoadPpmData |
