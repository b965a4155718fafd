# Energy-consumption arithmetic of the JLM telemetry server

This project models, in Dafny, the consumption arithmetic of the FastAPI
server in `jlm_cloudrun_login/main.py`. Field devices upload electrical
readings into one MySQL table per machine. The server answers dashboard
queries about those tables:

- the watt-hours used by one machine over a custom range or a shift;
- the fleet's consumption since 08:00 today, and the fleet's newest meter total;
- a chart series whose cumulative counter is rebased to start at zero.

Each SQL query becomes a pure selection over the table's rows. The modules
follow the server's components:

- `Telemetry` (`telemetry.dfy`): the data model. A `Sample` is one row, every
  measured column nullable. A `Table` is a sequence of rows. `Storage` is
  either unavailable (`Down`) or a map from table name to table. `Error`
  holds the HTTP outcomes: 400 `InvalidTable`/`InvalidShift`/`InvalidTimeFormat`,
  404 `NotFound`, 500 `ServerError`.
- `Registry` (`registry.dfy`): the `VALID_TABLES` allow-list.
- `Clock` (`clock.dfy`): Asia/Taipei wall-clock arithmetic. The current time
  is a (day, second of day, microsecond) triple, so `replace(hour=…)` and
  `- timedelta(days=1)` become integer arithmetic. Also the shift windows and
  the 08:00 opening check.
- `DeltaEngine` (`delta.dfy`): the two boundary-row queries and
  `get_total_watt_hours_difference`.
- `Fleet` (`fleet.dfy`): `get_total_daily_kwh` and `get_total_latest_kwh`.
- `Chart` (`chart.dfy`): the row selection and the rebasing loop of `get_chart_data`.
- `Ingest` (`ingest.dfy`): `upload_sensor_data` as "append one row to the named table".
- `Endpoints` (`endpoints.dfy`): the custom-range, chart and shift endpoints.

Timestamps are whole seconds on the Taipei clock, because the `timestamp`
column is a DATETIME. Each `ORDER BY timestamp … LIMIT 1` query is a selection
by timestamp, not by storage position: the row with the smallest (or largest)
qualifying timestamp, wherever it is stored. When several rows share that
timestamp the database may return any of them. The model fixes one of those
answers: the first such row in storage order for the start query, and the
last one for the end and newest-row queries. The chart query's
`ORDER BY timestamp` is a sort of the window's rows by timestamp.
`Chronological` tables, with strictly increasing timestamps, have no such
ties.

Facts about the code that the model keeps:

- The delta is a plain number; a negative difference is returned as it is.
- An unparsable instant in `get_chart_data` gives 500. The parse sits inside
  the `try` whose handler turns every exception into 500. In
  `get_custom_watt_hours` an unparsable instant gives 400.
- Windows are closed intervals: `>=`, `<=` and `BETWEEN`.
- A NULL counter on a selected row makes the subtraction or comparison raise.
  The request then fails with 500.

## Model

| member | source | states |
|---|---|---|
| Registry.IsValid | jlm_cloudrun_login/main.py:401-402 | a table name passes the allow-list check exactly when it is one of the eight machine tables; the empty name never does |
| Registry.ValidTablesDistinct | jlm_cloudrun_login/main.py:29-38 | the eight allow-listed machine tables are pairwise distinct, so a fleet sum visits each table once |
| Telemetry.Lookup | jlm_cloudrun_login/main.py:362-387 | reading a table succeeds exactly when storage is up and the table exists, and gives that table; any failure is a 500 |
| Telemetry.OrZero | jlm_cloudrun_login/main.py:651-653 | a NULL reading becomes 0.0 and any other keeps its value |
| Clock.ToTaipei | jlm_cloudrun_login/main.py:571-573 | a client instant is moved to the Taipei wall clock by a fixed +8 hours |
| Clock.BusinessOpen | jlm_cloudrun_login/main.py:482-490 | "not yet open" exactly when the Taipei time is before 08:00:00 today; otherwise the opening instant is 08:00 today, at or before now |
| Clock.ResolveShift | jlm_cloudrun_login/main.py:669-685 | day_shift is [D-1 08:00, D-1 17:00]; night_shift is [D-1 19:00, D 05:00]; since_morning is [D 08:00, now without microseconds]; any other kind is a 400 |
| Clock.DayShiftIsYesterday | jlm_cloudrun_login/main.py:670-673 | the day shift lies inside the previous calendar day, ends before today starts, and lasts nine hours |
| Clock.NightShiftSpansMidnight | jlm_cloudrun_login/main.py:675-678 | the night shift starts on the previous day and ends on the current day, ten hours later |
| Clock.SinceMorningMatchesBusinessOpen | jlm_cloudrun_login/main.py:679-683 | since_morning starts at the same 08:00 as the daily total, and its window is non-empty exactly when the business day has opened |
| DeltaEngine.FirstAtOrAfter | jlm_cloudrun_login/main.py:371-374 | the start query's row is at or after the start and has the smallest such timestamp, wherever it is stored; among rows sharing that timestamp it is the first stored; no row exactly when every row is before the start |
| DeltaEngine.LastAtOrBefore | jlm_cloudrun_login/main.py:376-379 | the end query's row is at or before the end and has the largest such timestamp, wherever it is stored; among rows sharing that timestamp it is the last stored; no row exactly when every row is after the end |
| DeltaEngine.Latest | jlm_cloudrun_login/main.py:504-507 | the newest-row query finds a row exactly when the table is non-empty; no row has a later timestamp, and every row stored after it has an earlier one |
| DeltaEngine.LatestIsLastAtOrBefore | jlm_cloudrun_login/main.py:504-518 | the newest row is the end row of the window that closes at its own timestamp, so the daily delta runs to the newest row |
| DeltaEngine.LatestAfterAppend | jlm_cloudrun_login/main.py:413-417 | a row appended with a timestamp no earlier than every stored row becomes the newest row |
| DeltaEngine.StartRowIsEarliest | jlm_cloudrun_login/main.py:372 | the start row is an earliest row with timestamp >= start, and on a chronological table it is the only one |
| DeltaEngine.FirstAtOrAfterIs | jlm_cloudrun_login/main.py:372 | any row with the smallest qualifying timestamp and no earlier-stored tie is the start row, so the start row is determined by its defining property |
| DeltaEngine.EndRowIsLatest | jlm_cloudrun_login/main.py:377 | the end row is a latest row with timestamp <= end, and on a chronological table it is the only one |
| DeltaEngine.LastAtOrBeforeIs | jlm_cloudrun_login/main.py:377 | any row with the largest qualifying timestamp and no later-stored tie is the end row |
| DeltaEngine.Difference | jlm_cloudrun_login/main.py:381-384 | the result is None exactly when no row is at or after the start or no row is at or before the end; its only failure is a 500 |
| DeltaEngine.DifferenceOfBoundaryRows | jlm_cloudrun_login/main.py:372-383 | against an independent description of the two rows, the delta is the end row's counter minus the start row's counter, unclamped, and a NULL counter is a 500 |
| DeltaEngine.DifferenceIgnoresOtherRows | jlm_cloudrun_login/main.py:372-383 | deleting any row other than the two boundary rows, or inserting one that does not become a boundary row, leaves the delta unchanged |
| DeltaEngine.ResetBetweenBoundariesIsInvisible | jlm_cloudrun_login/main.py:381-383 | a meter dip between the two boundary rows does not show: the delta is the boundary counters' difference, 100 Wh |
| DeltaEngine.ResetAtBoundaryIsNegative | jlm_cloudrun_login/main.py:381-383 | a window ending on the dip gives -10 Wh, returned unclamped |
| DeltaEngine.WindowAfterDataIsEmpty | jlm_cloudrun_login/main.py:381-384 | a window after the last row has no start row, so the delta is None |
| DeltaEngine.OutOfOrderScenario | jlm_cloudrun_login/main.py:371-379 | with rows stored out of timestamp order, the boundary rows are still chosen by timestamp: rows (20 s, 5 Wh) then (10 s, 1 Wh) over [0, 30] give +4 Wh, and the newest row is the first stored |
| DeltaEngine.WattHoursDifference | jlm_cloudrun_login/main.py:354-392 | no connection, a bound that is already a string, or a missing table gives 500; with datetime bounds the result is the table's delta |
| Fleet.DailyContribution | jlm_cloudrun_login/main.py:499-521 | a table's share of the daily total is never negative, is 0 when no row is at or after 08:00, and fails only with 500 |
| Fleet.DailyContributionIsClampedDifference | jlm_cloudrun_login/main.py:509-518 | a table's share is the delta from 08:00 to its newest row, with a missing delta as 0 and a negative delta (a meter reset) as 0 |
| Fleet.SumDaily | jlm_cloudrun_login/main.py:498-523 | the daily sum over the listed tables is never negative; it succeeds exactly when every listed table exists and its share does not raise; over one table it is that table's share, and a missing table is a 500 |
| Fleet.SumDailyConcat | jlm_cloudrun_login/main.py:498-523 | the daily sum over a concatenated list is the sum of the two parts, so with `SumDaily` on one table the total is the sum of the tables' shares |
| Fleet.TotalDailyKwh | jlm_cloudrun_login/main.py:479-528 | before 08:00 the answer is 0 whatever storage holds, even with no connection; after 08:00 an unavailable store is a 500; otherwise it is the daily sum over the allow-list from 08:00 today; a total is never negative |
| Fleet.LatestContribution | jlm_cloudrun_login/main.py:546-550 | an empty table adds 0; a non-empty one adds the counter of its newest row, and fails exactly when that counter is NULL |
| Fleet.SumLatest | jlm_cloudrun_login/main.py:545-552 | the latest-value sum succeeds exactly when every listed table exists and its newest counter is not NULL; over one table it is that table's newest counter |
| Fleet.SumLatestConcat | jlm_cloudrun_login/main.py:545-552 | the latest-value sum over a concatenated list is the sum of the two parts, so the visiting order does not change the total |
| Fleet.TotalLatestKwh | jlm_cloudrun_login/main.py:542-557 | an unavailable store is a 500; otherwise the total is the latest-value sum over the allow-list, and it succeeds exactly when every allow-listed table exists with a non-NULL newest counter |
| Fleet.SumLatestIgnoresUnlistedTable | jlm_cloudrun_login/main.py:545-552 | a table not in the list being summed does not change the latest-value sum |
| Fleet.SumDailyIgnoresUnlistedTable | jlm_cloudrun_login/main.py:498-523 | a table not in the list being summed does not change the daily sum |
| Fleet.TotalsIgnoreUnlistedTable | jlm_cloudrun_login/main.py:498-552 | both fleet totals iterate the allow-list, so a table outside it never changes them |
| Chart.InRange | jlm_cloudrun_login/main.py:631-633 | the selected rows are exactly the table's rows with start <= timestamp <= end, each as often as it is stored |
| Chart.InRangeChronological | jlm_cloudrun_login/main.py:631 | on a chronological table the window's rows, in storage order, keep strictly increasing timestamps |
| Chart.SortByTime | jlm_cloudrun_login/main.py:631 | `ORDER BY timestamp` yields rows in ascending timestamp order that are a permutation of its input |
| Chart.InsertByTimeAscending | jlm_cloudrun_login/main.py:631 | inserting one row into ascending rows keeps them ascending |
| Chart.InsertByTimeAddsRow | jlm_cloudrun_login/main.py:631 | inserting one row adds exactly that row, as a multiset |
| Chart.SortKeepsAscending | jlm_cloudrun_login/main.py:631 | rows already in ascending order are left as they are |
| Chart.WindowRows | jlm_cloudrun_login/main.py:631-633 | the chart query returns the window's rows in ascending timestamp order, each row of the window exactly as often as it is stored and no other row |
| Chart.WindowRowsOfChronological | jlm_cloudrun_login/main.py:631-633 | on a chronological table the chart query's rows are the window's rows in storage order |
| Chart.Rebase | jlm_cloudrun_login/main.py:642-654 | one output point keeps the row's timestamp; its counter plus the baseline gives back the row's counter, a NULL counter gives 0.0, and NULL watt and pf read as 0.0 |
| Chart.Series | jlm_cloudrun_login/main.py:636-654 | the series has one point per row, with the rows' timestamps in the rows' order |
| Chart.ProjectSeries | jlm_cloudrun_login/main.py:636-654 | the loop yields one point per row, in order; each point's counter is the row's counter minus the first row's (0.0 for a NULL first counter), or 0.0 for a NULL row counter; NULL watt and pf read as 0.0 |
| Chart.SeriesStartsAtZero | jlm_cloudrun_login/main.py:640-645 | the first point of any non-empty series has a rebased counter of 0 |
| Chart.SeriesKeepsDifferences | jlm_cloudrun_login/main.py:644-645 | between two rows with counters, the rebased values differ by exactly the raw difference, so a meter reset appears as an uncorrected drop |
| Chart.SeriesWithNullBaselineIsRaw | jlm_cloudrun_login/main.py:640 | with a NULL first counter the baseline is 0.0, so every counter is reported unchanged |
| Chart.SeriesIgnoresCounterOffset | jlm_cloudrun_login/main.py:640-645 | when the first row has a counter, shifting every counter by a constant leaves the series unchanged |
| Ingest.Upload | jlm_cloudrun_login/main.py:400-437 | an unknown table is a 400 before storage is touched; a storage failure or a missing table is a 500; with a valid name, storage up and the table present the upload succeeds, and one row, stamped with the server time, is appended to that table and all other tables are unchanged |
| Ingest.ToSample | jlm_cloudrun_login/main.py:413-427 | the inserted row carries the server's timestamp, never a client value, and every measured column holds the uploaded value, none NULL |
| Ingest.UploadKeepsChronological | jlm_cloudrun_login/main.py:413-417 | with a server clock later than every stored row, an upload keeps the table chronological |
| Ingest.SumLatestAfterUpdate | jlm_cloudrun_login/main.py:545-552 | replacing one listed table changes the latest-value sum by exactly the change of that table's newest counter |
| Ingest.LatestTotalAfterUpload | jlm_cloudrun_login/main.py:413-430 | after an upload at a server time no earlier than any stored row, the fleet's latest total is the old total with that table's previous newest counter (0 if empty) replaced by the uploaded reading |
| Endpoints.CustomWattHours | jlm_cloudrun_login/main.py:564-585 | an unknown table is a 400 before anything else; an unparsable instant is a 400; the answer is a figure exactly when the stored table's delta over the Taipei-shifted window is one, and then it is that delta; a 404 occurs exactly when the window has no start row or no end row; any other failure after the checks is a 500 |
| Endpoints.ChartData | jlm_cloudrun_login/main.py:587-661 | an unknown table is a 400; no connection or an unparsable instant is a 500; a success occurs exactly when the table exists, and is the rebased series of the window's rows in timestamp order; every failure past the allow-list check is a 500 |
| Endpoints.ShiftWattHoursAsWritten | jlm_cloudrun_login/main.py:663-687 | an unknown table is a 400 and an unknown shift kind is a 400; for every known kind the answer is a 500 |
| Endpoints.ShiftWattHours | jlm_cloudrun_login/main.py:663-691 | the corrected shift endpoint answers with a figure exactly when the resolved shift window's delta is one, and then it is that delta; a 404 occurs exactly when that window has no start row or no end row; any other failure after the checks is a 500 |
| Endpoints.ShiftAsWrittenNeverSucceeds | jlm_cloudrun_login/main.py:687 | the shift endpoint as written never returns a figure |
| Endpoints.ShiftAsWrittenLosesDayShift | jlm_cloudrun_login/main.py:669-687 | for a table whose previous day shift used 100 Wh, the corrected endpoint answers 100 and the endpoint as written answers 500 |

## Left out

- Authentication, JWT issuance and checking, bcrypt hashing, registration and password reset (`main.py` lines 108-345): library calls and credential storage. Every query is taken to come from an authenticated caller.
- The connection pool, CORS, the static mount and the redirect (lines 22-105 and 347-350): framework and I/O. A pool that cannot hand out a connection is the `Storage.Down` case.
- `get_tables` (lines 447-466): it only returns `SHOW TABLES`.
- `jlm_cloudrun_esp32/main.py`: a copy of the upload route with the same allow-list check; it is not part of this model.
- ISO 8601 parsing (`isoparse`) and `pytz` conversion: foreign libraries. A client instant arrives already parsed to UTC whole seconds, or `None` when it does not parse. `ToTaipei` applies the fixed +8 h offset. Sub-second parts of client instants are dropped, as the `strftime` formatting drops them.
- The current time, and the database's `NOW()` for an upload: parameters (`LocalTime`, `Instant`).
- `round(…, 2)` in the chart reply, and float arithmetic in general: counters are exact reals, so rounding error and the order of float additions are not modelled.
- `strftime` text, response field names, error detail messages and all logging.
- Which table raised first in a fleet total: the model reports only that the request fails with 500.
- Chart.Series: its own contract states only length and timestamps. The values are stated by `Chart.ProjectSeries` and the `Series…` lemmas.
- Which of several rows sharing the boundary timestamp the database returns: the model fixes one allowed answer (first stored for the start query, last stored for the end and newest-row queries; storage order within a tie for the chart). Properties that must not depend on that choice are stated for `Chronological` tables.

## Findings

| source | as written | input that shows it | evidently intended | confidence | as-written member | corrected member |
|---|---|---|---|---|---|---|
| jlm_cloudrun_login/main.py:671-687 | the shift window is formatted with `strftime` into strings, and those strings go to `get_total_watt_hours_difference`, which calls `strftime` on them again (line 367); that raises, and the handler turns it into a 500 | any allow-listed table, `shift_type` = `day_shift`, and a table holding rows from yesterday's day shift | pass the datetimes, as `get_custom_watt_hours` does, and answer with the shift's delta or 404 | high; not executed | Endpoints.ShiftWattHoursAsWritten (Endpoints.ShiftAsWrittenNeverSucceeds, Endpoints.ShiftAsWrittenLosesDayShift) | Endpoints.ShiftWattHours |
