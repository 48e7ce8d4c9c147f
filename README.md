# StoreMonitoring report engine in Dafny

This project models the report engine of the StoreMonitoring service. It covers five parts:

- **Uptime over a window.** For every business-hour row of a store, `calculate_uptime_downtime` clips the row's local clock times against the time of day of the window's start and end. It converts each non-empty overlap to whole seconds and sums business time, plus uptime where the status source says the store was active.
- **One entry per store.** `generate_and_store_report_data` builds the last-hour, last-day and last-week windows, which all end at one timestamp, and stores one `ReportEntry`. `generate_reports` does this for a list of stores. Per-store errors are logged and swallowed.
- **Status lookup and CSV rendering.** These are `get_report_status_and_data` and `generate_report_csv_data`.
- **The job lifecycle.** The trigger handler draws an 8-hex-digit id, schedules the background job and records a `Running` task. The background job generates every store's entry and then flips the task to `Complete`. The poll handler maps the task status to a reply and writes the report file.
- **The records** of `app/models.py`.

The model follows the source's own form:

- The database is a class `Database.Db`:
  - the task table is a map from the unique report id to its status;
  - the report entries are a sequence, appended to in insertion order;
  - the business-hour and time-zone tables are constants.
- The handlers and the background job are module-level methods that take that object, run one after another.
- The two loops that accumulate are `for` loops: the uptime loop of `calculate_uptime_downtime` is `Uptime.SumOverlaps`, and the CSV loop is `ReportUtils.GenerateReportCsvData`. Each is proved against a recursive specification function, and the properties the source promises are proved about those functions as lemmas.

Modelling choices:

- **Timestamps** are integers: microseconds since `datetime.min` (0001-01-01 00:00).
- **`.time()`** is the decomposition of the timestamp modulo one day into hour, minute, second and microsecond.
- **Time comparison** is lexicographic, as on `datetime.time`.
- **Overlap durations** are `h*3600 + m*60 + s`, which drops the microseconds, as the source does.
- **Subtraction.** Subtracting a timedelta below `datetime.min` raises in Python. The model returns `None` there, and that error path is swallowed like any other.
- **Hours** are exact reals.
- **Status source.** The store's status is a function parameter (`Uptime.StatusOracle`). The source's stub `get_store_status`, which always answers ACTIVE, is `Uptime.GetStoreStatus`, and the facts that hold for the stub are proved for that instance.

Behaviour of the code, as proved:

- The one-day and one-week windows start and end at the same time of day. So they always measure zero uptime and zero downtime (`Uptime.DayAndWeekWindowsAreEmpty`).
- A store without business-hour rows measures zero. There is no open-all-day default.
- A row's weekday is never consulted.
- A timestamp less than a week after `datetime.min` produces no entry at all, because the week's start overflows.
- The trigger schedules the job before it writes the task row. Two consequences follow:
  - an id collision answers with the error reply, but the job still runs;
  - a job that overtakes the insert leaves the task `Running` for good (`Lifecycle.JobOvertakesInsert`).
- The Complete reply names `csv_file_path/report_<id>.csv`, but the file is written to `reports/report_<id>.csv`.
- An unknown report id gets no reply at all from the poll handler, because its "Not Found" status matches no branch.
- The business hours are compared as stored: the code converts no time zone and filters no weekday; `timezone_str` is carried but never read.
- The status stub `get_store_status` answers ACTIVE for every store and interval (`Uptime.GetStoreStatus`), so no status observation is ever consulted.
- A task status is only ever `Running` or `Complete`; nothing marks a job as failed.
- Widening the window can lose business time: a store open 09:00-17:00 polled at 16:00 has one hour in the last hour and none in the last day (`Uptime.WideningCanLoseTime`).

## Model

| member | source | states |
|---|---|---|
| Models.StatusValue | app/models.py:17-18 | a store status is stored as "active" or "inactive", and as "active" exactly when it is Active |
| Models.HoursOfStore | app/ReportUtils.py:82 | the business-hour query returns the table's rows of that store and no other rows, never more rows than the table holds |
| Models.HoursOfStoreCounts | app/ReportUtils.py:82 | the query returns each row of that store exactly as many times as the table holds it, and no row of another store |
| Models.EntriesOfReport | app/ReportUtils.py:162 | the entry query returns exactly the stored entries of that report |
| Models.EntriesOfReportAppend | app/ReportUtils.py:57-58 | storing an entry appends it to its own report's entries and leaves every other report's entries unchanged |
| Models.EntriesOfAbsentReport | app/ReportUtils.py:162 | a report none of whose entries is stored has no entries |
| Models.EntriesOfFreshReport | app/ReportUtils.py:162 | entries appended under a report id no stored entry carries are exactly that report's entries, in order |
| Database.MenuHoursQuery | app/ReportUtils.py:32 | the per-store business-hour query fails exactly for a failing store, and otherwise returns exactly that store's rows |
| Database.MenuHoursQueryCounts | app/ReportUtils.py:32 | a query that succeeds returns each row of the store exactly as many times as the table holds it, and no row of another store |
| Database.Db.constructor | app/models.py:99-103 | a fresh database has no tasks and no entries, and every task status is Running or Complete |
| Database.Db.AddTask | app/models.py:101 | given a Running or Complete status, adding a task keeps every task status Running or Complete; it succeeds exactly when no task has that id (the unique report id); a refused add changes nothing; entries are untouched |
| Database.Db.AddEntry | app/ReportUtils.py:57-58 | storing an entry appends it and leaves the tasks unchanged |
| Clock.Later | app/ReportUtils.py:90 | the later of two times is one of them, and neither is after it |
| Clock.Earlier | app/ReportUtils.py:91 | the earlier of two times is one of them, and neither is before it |
| Clock.TimeOf | app/ReportUtils.py:90-91 | the time of day of a timestamp is a valid time whose microseconds since midnight are the timestamp modulo one day |
| Clock.Subtract | app/ReportUtils.py:36 | subtracting a duration succeeds exactly when the result is not before datetime.min, and then adds back to the timestamp |
| Clock.BeforeIsMicrosLess | app/ReportUtils.py:93 | comparing two times is comparing their microseconds since midnight |
| Clock.ClockSecondsIsFloor | app/ReportUtils.py:95-97 | `h*3600+m*60+s` is the time's microseconds since midnight rounded down to whole seconds |
| Clock.ClockSecondsMonotone | app/ReportUtils.py:93-97 | the later of two times never has fewer whole seconds, so an overlap's duration is never negative |
| Clock.TimeOfWholeDays | app/ReportUtils.py:38-43 | timestamps a whole number of days apart have the same time of day |
| Uptime.GetStoreStatus | app/ReportUtils.py:112-125 | the stub answers Active for every store and interval |
| Uptime.Contribution | app/ReportUtils.py:93-99 | a row adds business seconds only when its clipped overlap is non-empty |
| Uptime.ContributionIsClippedOverlap | app/ReportUtils.py:90-97 | a row counts exactly when the later start precedes the earlier end; it then adds the difference of the two ends' whole seconds, within one second of the exact overlap and equal to it on whole-second ends, and otherwise adds nothing |
| Uptime.OvernightRowNeverCounts | app/ReportUtils.py:90-93 | a row whose end is not after its start (an overnight row) never overlaps any window |
| Uptime.SumsStep | app/ReportUtils.py:89-102 | one more row adds its clipped overlap to the business seconds, and to the up seconds exactly when the status source calls it active |
| Uptime.SumOverlaps | app/ReportUtils.py:84-102 | the loop's business hours and uptime hours are the window's business seconds and up seconds over all the rows, in hours |
| Uptime.CalculateUptimeDowntime | app/ReportUtils.py:65-110 | the loop returns the window's uptime hours and business hours minus uptime hours over the store's rows, or None when the query raises |
| Uptime.UpWithinBusiness | app/ReportUtils.py:99-102 | for any status source, uptime never exceeds business time |
| Uptime.MeasureSplitsBusinessTime | app/ReportUtils.py:104 | uptime and downtime are non-negative and add up to the business time in hours |
| Uptime.StubUpIsBusiness | app/ReportUtils.py:125 | with the always-active stub, uptime is all of the business time |
| Uptime.StubHasNoDowntime | app/ReportUtils.py:104 | with the always-active stub, downtime is zero and uptime is the business hours |
| Uptime.NoHoursNoTime | app/ReportUtils.py:85-108 | a store without business-hour rows measures zero uptime and zero downtime |
| Uptime.SameTimeOfDayRowIsEmpty | app/ReportUtils.py:90-93 | a window that starts and ends at the same time of day gets nothing from any row |
| Uptime.SameTimeOfDayIsEmpty | app/ReportUtils.py:89-99 | such a window has no business time at all |
| Uptime.DayAndWeekWindowsAreEmpty | app/ReportUtils.py:38-43 | the last-day and last-week windows always measure zero uptime and zero downtime, whatever the rows and status source |
| Uptime.HourWindowStart | app/ReportUtils.py:36 | the last hour starts one hour earlier in the same day, unless it wraps past midnight, when its start's time of day is after its end's |
| Uptime.HourWindowRow | app/ReportUtils.py:90-97 | in the last-hour window a row adds at most 3600 seconds, and nothing when the hour wraps past midnight |
| Uptime.HourWindowBound | app/ReportUtils.py:35-37 | the last hour's business time is at most one hour per row, and zero when the hour wraps past midnight |
| Uptime.DayIsNeverConsulted | app/ReportUtils.py:89-91 | rows with the same clock times give the same measure, whatever their weekday or store id |
| Uptime.WideningCanLoseTime | app/ReportUtils.py:35-40 | a store open 09:00-17:00 polled at 16:00 has one hour of uptime in the last hour and none in the last day |
| Text.Split | app/ReportUtils.py:163-165 | splitting a text yields at least one piece |
| Text.SplitJoin | app/ReportUtils.py:165 | splitting at a separator undoes joining with it when no piece holds the separator |
| Text.SplitUnlines | app/ReportUtils.py:164-165 | newline-free lines, each written with a trailing newline, split at newlines back into those lines, in order, and an empty piece after the last newline |
| Text.SplitAfterFirstLine | app/ReportUtils.py:163-165 | a newline-free first line followed by such lines splits into the first line, the lines and a final empty piece |
| Text.IntToString | app/ReportUtils.py:165 | an integer's text is non-empty and holds only a minus sign and digits |
| ReportUtils.EntryFor | app/ReportUtils.py:28-62 | an entry exists exactly when the business-hour query succeeds and the week's start does not overflow, and it carries the report and store ids |
| ReportUtils.EntryForShape | app/ReportUtils.py:16-62 | an entry exists exactly when the query succeeds and the week's start does not overflow; it carries the report and store ids, zero day and week metrics, and hour metrics that are non-negative and sum to at most one hour per row |
| ReportUtils.StubEntry | app/ReportUtils.py:35-54 | with the stub, the hour uptime is the hour's business time (zero when the hour wraps), and every downtime is zero |
| ReportUtils.GenerateAndStoreReportData | app/ReportUtils.py:16-62 | one store appends its entry, built from the three windows ending at the same timestamp with week uptime as `update_last_week`, or nothing when a step fails; tasks are untouched |
| ReportUtils.JobEntriesShape | app/ReportUtils.py:186-188 | a run adds no more entries than there are stores, each under the run's report id and for a listed store whose query did not fail |
| ReportUtils.JobEntriesStep | app/ReportUtils.py:186-188 | one more store appends its own entry, if any, after what the earlier stores added |
| ReportUtils.JobEntriesAppend | app/ReportUtils.py:186-188 | a run over two store lists adds the first list's entries followed by the second's |
| ReportUtils.JobEntriesAround | app/ReportUtils.py:186-188 | a store's entry, if any, sits between the entries of the stores before it and those of the stores after it, so a failing store costs only its own entry |
| ReportUtils.WorkingStoreKeepsItsEntry | app/ReportUtils.py:28-62 | a listed store whose query does not fail gets an entry under the run's id once the week's start does not overflow, whatever the other stores do |
| ReportUtils.JobEntriesPerStore | app/ReportUtils.py:186-188 | when no query fails and the week's start does not overflow, a run adds exactly one entry per store, in list order |
| ReportUtils.JobEntriesTooEarly | app/ReportUtils.py:41-43 | less than a week after datetime.min every store fails and a run adds nothing |
| ReportUtils.GenerateReports | app/ReportUtils.py:170-194 | every store is visited in order with the same id and timestamp, failures stay inside, and the report id is returned |
| ReportUtils.GetReportStatusAndData | app/ReportUtils.py:128-149 | an unknown id gives "Not Found" and no data; a Complete report gives its status and CSV text; any other status is returned with no data |
| ReportUtils.GenerateReportCsvData | app/ReportUtils.py:152-167 | the loop builds the header line followed by one newline-terminated line per entry of the report, in stored order |
| ReportUtils.LineSplitsIntoFields | app/ReportUtils.py:165 | each entry's line splits at its commas into exactly its seven fields in header order, and holds no newline |
| ReportUtils.HeaderSplitsIntoColumns | app/ReportUtils.py:163 | the header splits at its commas into the seven column names |
| ReportUtils.HeaderHasNoNewline | app/ReportUtils.py:163 | the header is a single line |
| ReportUtils.LinesSplitIntoFields | app/ReportUtils.py:165 | every entry's line splits at its commas into that entry's fields and holds no newline |
| ReportUtils.CsvLayout | app/ReportUtils.py:162-167 | the CSV text is the header line, then exactly one line per entry in order, 1 + #entries lines in all, each entry's line splitting at its commas into its fields in header order |
| Task.ToStores | app/Task.py:25-26 | one time-zone record per roster item, in order, with its store id and time-zone string |
| Task.GenerateReportsTask | app/Task.py:10-38 | the job appends the entries of every roster store in order under one id and timestamp; then the task with that id, if any, becomes Complete even when stores failed; no task is created and other tasks are untouched |
| TriggerReportResource.ReportIdFrom | app/TriggerReportResource.py:28 | a drawn report id has exactly eight characters, each in 0123456789abcdef |
| TriggerReportResource.ReportIdReachable | app/TriggerReportResource.py:28 | every eight-hex-digit id can be drawn |
| TriggerReportResource.Roster | app/TriggerReportResource.py:35 | one roster item per time-zone row, in order, with its store id and time-zone string |
| TriggerReportResource.RosterRoundTrip | app/TriggerReportResource.py:32-35 | the roster has one item per time-zone row, and the job rebuilds from it exactly those rows in the same order |
| TriggerReportResource.Post | app/TriggerReportResource.py:13-49 | the job is scheduled with the new id, the one timestamp read and the roster; a fresh id adds exactly one Running task and replies with the id; a colliding id changes no task and gets the error reply with 500; every task status stays Running or Complete |
| ReportResource.Respond | app/ReportResource.py:37-53 | Running gets `{"status": "Running"}` with 200; Complete gets the Complete reply unless the write fails; no reply exactly for a status other than Running and Complete; a file is written exactly for Complete with data and a successful write, holding that data at `reports/report_<id>.csv`; the error reply comes exactly when that write fails |
| ReportResource.CompleteReplyIgnoresData | app/ReportResource.py:44-50 | the Complete reply is the same whether or not there was data to write |
| ReportResource.ReplyPathIsNotWrittenPath | app/ReportResource.py:41-50 | the path named in the Complete reply differs from the path the file is written to |
| ReportResource.Get | app/ReportResource.py:17-53 | Running replies `{"status": "Running"}` with 200 and writes nothing; Complete writes the report's CSV text to `reports/report_<id>.csv` and replies with the Complete reply, or with the error reply when the write fails; an unknown id or any other status gets no reply, so while every task status is Running or Complete there is no reply exactly for an unknown id |
| Lifecycle.TriggerRunPoll | app/Task.py:29-38 | trigger with a fresh id, then poll: Running; run the job, then poll: Complete, with a file holding the CSV text of exactly the job's entries |
| Lifecycle.JobOvertakesInsert | app/TriggerReportResource.py:39-44 | a job that runs before the task row is written completes nothing, and the report stays Running although all its entries are stored |

## Left out

- Time zones are left out. The code carries `timezone_str` but never reads it, and the business hours are compared as given. Weekday filtering and status interpolation are left out for the same reason: the code does not implement them.
- Logging is left out throughout.
- Celery is not modelled: no serialisation and no broker. Scheduling returns the job's arguments as a `Task.Job` value, and the job runs when a caller invokes `Task.GenerateReportsTask`. Concurrent jobs are not modelled. The one interleaving that matters, the job running before the insert, is the sequential scenario `Lifecycle.JobOvertakesInsert`.
- SQLAlchemy is replaced by in-memory state. The failure of a business-hour query is modelled through a set of failing stores. The following database failures are not modelled:
  - failure of the roster query in the trigger handler;
  - failure of the task lookup or the commits in the background job;
  - failure of the task lookup in the poll handler.
- The session rollback that a failed commit would need is not modelled.
- Query results are taken in insertion order.
- The ReportTask `timestamp` column, the StoreStatus table and the seed loader `app/csv2DB.py` are not part of this model. Nothing in the core reads them.
- `generate_reports` documents its stores as dictionaries but reads attributes. The model passes store records.
- Uptime.CalculateUptimeDowntime: hours are exact reals. Float rounding of `seconds / 3600` and of the running sums is not modelled.
- ReportUtils.GenerateReportCsvData: the text of a float inside the f-string is an abstract `NumberFormat` function. Python's `repr` of floats is not modelled. The layout lemmas assume only that this text holds no comma and no newline.
- TriggerReportResource.ReportIdFrom: `random.choice` is replaced by the eight indices it picks, passed in as a parameter. The clock read `utcnow()` is likewise a parameter of `TriggerReportResource.Post`.
- ReportResource.Get: the only exception modelled is a failed file write, given as a flag. The file system is reduced to the returned `FileWrite` value.
