# Xpoint time tracker — a verified model of its core

Xpoint is a small Ruby time tracker (one file, `xpoint.rb`). It stores
projects with a weekly hours target and a list of work days. It stores time
entries: work and pause intervals per project and date, with an optional end
time. Overwriting an entry's end time leaves a record in an edit history.
A daily report sums a day's entries and compares the worked hours with the
project's expected daily hours: 'blue' is on target, 'green' is over, 'red' is under.

The model has one Dafny module per part of the program:

- `Wrappers`: Option, Result and Outcome. They stand for Ruby's `nil` and raised exceptions.
- `Text`: `Array#join(',')` and `String#split(',')`, the way the work-day list is stored and read back. Also the text order SQLite uses for `ORDER BY`.
- `Clock`: zero-padded "HH:MM" times and minutes since midnight.
- `Projects`: the `projects` table as a class `Registry` that holds a sequence of rows. Also `daily_hours` as integer ceiling division.
- `TimeEntries`: the `time_entries` and `edits_history` tables as a class `Log` with two sequences. The methods append to them or overwrite in place.
- `Reports`: `daily_summary`. The accumulation loop is a method with loop invariants. It is proved against pure sum functions, and the lemmas about the report are stated on those functions.

Time is counted in whole minutes. The Ruby code works in floating-point hours (seconds / 3600.0).
At minute precision, the rule `work_time.round(2) == expected_time` holds exactly when
`work_minutes == 60 * expected_time`. `Reports.RoundedMinutesEqualHours` proves this
against a model of Ruby's `Float#round(2)` on real numbers. So the status rule becomes
exact integer arithmetic. A closed entry's duration is the difference of its two "HH:MM" readings,
which is what Ruby computes except across a daylight-saving change. An open entry's
duration runs to `now`, a whole minute; Ruby's `Time.now` carries seconds, so the model
does not capture statuses that depend on them (see "## Left out").

Where descriptions of this tool and the code differ, the model follows the code:

- `Project.create` validates nothing. There is no error for zero hours or an empty day list.
- Work days are counted with duplicates: `split(',').count`, not the number of distinct days.
- `total_time` sums only non-pause entries, and work is that sum minus the pauses. So for the usage example at the end of the file (3 h work, 1 h pause, 5 h work, 8 h expected), work is 7 h and the status is 'red', not on target (`Reports.UsageExample`).
- `for_project` filters one date and orders by start time only.
- `update` on an unknown id does not report a not-found error. The UPDATE changes nothing, then `nil[4]` raises. The model returns `Fail(NoSuchEntry)` and leaves both tables unchanged.
- Weekly and monthly summaries are not implemented anywhere (xpoint.rb:126 is a placeholder comment).

## Model

| member | source | states |
|---|---|---|
| `Text.Join` | xpoint.rb:43 | `join(',')`: the text starts with the first part and is as long as all the parts plus one comma per gap between them; "" for no parts |
| `Text.Split` | xpoint.rb:59 | no field of `split(',')` contains a comma, and the last field is never empty (trailing empty fields are dropped); there are no fields exactly when the text is commas only, "" included |
| `Text.SplitJoin` | xpoint.rb:43 | splitting the comma-joined day list gives back the list, duplicates and order included, when no name has a comma and the last name is not empty (this covers the empty list) |
| `Text.LexLe` | xpoint.rb:78 | the text order of `ORDER BY start_time` (SQLite's BINARY collation, code point by code point); a prefix comes first |
| `Clock.ParseHHMM` | xpoint.rb:94-95 | a parsed "HH:MM" lies in 0..1439 minutes, and the text is exactly the formatting of that minute (so parsing is injective) |
| `Clock.ParseFormat` | xpoint.rb:94-95 | parsing the formatting of any minute of the day gives back that minute |
| `Clock.TextOrderIsChronological` | xpoint.rb:78 | for well-formed times, the text order used by `ORDER BY start_time` holds exactly when the first time is not later than the second |
| `Projects.CeilDiv` | xpoint.rb:60 | `(a.to_f / n).ceil` for n > 0 is the q with q * n >= a and (q - 1) * n < a |
| `Projects.DayCount` | xpoint.rb:59 | `split(',').count`, duplicates counted; zero exactly when the work-day text is commas only, the empty text included |
| `Projects.ExpectedHours` | xpoint.rb:58-61 | for a found project: it fails exactly when its work-day text has no fields (Ruby raises on the infinite or NaN quotient); otherwise it is the ceiling of weekly hours over the number of fields |
| `Projects.ExpectedHoursOfDayList` | xpoint.rb:43-60 | a project stored from a list of non-empty, comma-free names expects the ceiling of weekly hours over the length of that list, duplicates counted; an empty list fails |
| `Projects.DailyHoursExamples` | xpoint.rb:130 | 40 h over five days is 8, 21 h is 5, and 40 h over "Monday,Monday" is 20 (a repeated day counts twice) |
| `Projects.UsageExampleHours` | xpoint.rb:130 | the usage example's project (40 h, Monday to Friday) expects 8 hours a day |
| `Projects.UsageExampleRegistered` | xpoint.rb:130 | a registry holding just that project, with id 1, answers `daily_hours(1)` with 8 |
| `Projects.FindById` | xpoint.rb:50-52 | None exactly when no row has the id; otherwise the first row with that id |
| `Projects.Registry.Create` | xpoint.rb:41-44 | appends exactly one row with the next row id and the comma-joined work days; earlier rows are unchanged; no validation |
| `Projects.Registry.Find` | xpoint.rb:50-52 | None exactly when no stored project has the id; otherwise a stored project with that id |
| `Projects.Registry.FindRegistered` | xpoint.rb:42-51 | under `Valid`, the project at position k (counting from 0) is the one `Find(k + 1)` returns |
| `Projects.Registry.DailyHours` | xpoint.rb:54-62 | 0 for an unknown id; for a found project, a failure exactly when its day count is 0, and otherwise the ceiling of weekly hours over the day count |
| `TimeEntries.IndexOfId` | xpoint.rb:72 | None exactly when no entry has the id; otherwise the position of the first entry with it |
| `TimeEntries.Select` | xpoint.rb:78 | each entry of the given project and date occurs as often as it is stored, and no other entry occurs |
| `TimeEntries.SortByStart` | xpoint.rb:78 | the result is ascending by start time in text order and is a permutation of the input |
| `TimeEntries.SortedStartsUnique` | xpoint.rb:78 | two arrangements of the same entries, both sorted by start time, have the same start time at every position |
| `TimeEntries.Log.Create` | xpoint.rb:66-69 | appends exactly one entry with the next id and the given fields, whether or not the project exists; the history is unchanged |
| `TimeEntries.Log.RecordEdit` | xpoint.rb:81-84 | appends exactly one history record with the next id, the given fields and the given time stamp; entries are unchanged |
| `TimeEntries.Log.Update` | xpoint.rb:71-75 | it succeeds exactly when the id is one of the stored ids 1..n; for a known id, only that entry's end time changes, to the new value, and exactly one record (id, "end_time", previous end time or None, new end time, stamp) is appended after the unchanged history; for an unknown id it fails and changes nothing |
| `TimeEntries.Log.EntryOfId` | xpoint.rb:72-73 | the entry appended k-th is the only one with id k + 1, so changing the first entry with an id changes every row `WHERE id = ?` matches |
| `TimeEntries.Log.ForProject` | xpoint.rb:77-79 | exactly the stored entries of that project and date, each as often as stored, sorted by start time |
| `TimeEntries.Log.OrderFixedUpToTies` | xpoint.rb:77-78 | any ordering of the selected entries by start time has the same start time as ForProject at every position, so only entries with equal start times can come in another order |
| `Reports.Round2` | xpoint.rb:108 | `Float#round(2)` on a real: a whole number of hundredths within half a hundredth of the argument, and at an exact half the one further from zero |
| `Reports.StatusOfHours` | xpoint.rb:108-114 | the rule as written on hours: 'blue' only within half a hundredth of the target, 'green' only at least half a hundredth above it, 'red' only at least half a hundredth below it |
| `Reports.RoundedMinutesEqualHours` | xpoint.rb:108 | a whole number of minutes, in hours rounded to two decimals (halves away from zero), equals a whole number e of hours exactly when it is 60 * e minutes |
| `Reports.Classify` | xpoint.rb:108-114 | the status equals the Ruby rule applied to the work in hours; 'blue' exactly on target, 'green' exactly when over, and 'red' otherwise |
| `Reports.Duration` | xpoint.rb:94-96 | an open entry lasts from its start to "now"; a closed one lasts less than a day either way, and it lasts a non-negative time exactly when its end does not come before its start in text order |
| `Reports.SumDurations` | xpoint.rb:90-103 | fails exactly when some time does not parse; otherwise returns the non-pause sum and the pause sum of the durations, an open entry ending at "now" |
| `Reports.AccumulatedPermutation` | xpoint.rb:93-103 | the pause sum and the non-pause sum are the same for any reordering of the entries |
| `Reports.AccumulatedClosed` | xpoint.rb:95 | when every entry has an end time, the sums do not depend on "now" |
| `Reports.SummaryOrderIndependent` | xpoint.rb:89-114 | the whole daily summary is the same for any order of the entries |
| `Reports.SummaryClosedIdempotent` | xpoint.rb:95-114 | with every entry closed, two summaries taken at different times are identical |
| `Reports.DailySummary` | xpoint.rb:88-124 | fails if a stored time of the day's entries does not parse, or if the project has no work days; otherwise total = non-pause sum, pause = pause sum, work = total - pause, expected = daily hours (0 for an unknown project), status classified as above |
| `Reports.UsageExample` | xpoint.rb:130-134 | the file's usage example gives total 480 min, pause 60 min, work 420 min, expected 8 h, status 'red' |
| `Reports.UsageExampleLogged` | xpoint.rb:131-134 | a log holding exactly the example's three entries gives, through the `for_project` query, total 480 min, pause 60 min, work 420 min and 'red' against 8 h |
| `Reports.UsageExampleEndToEnd` | xpoint.rb:129-134 | the whole example: creating the project and the three entries, then the daily summary of 2024-03-08, gives 480, 420 and 60 minutes, 8 expected hours and 'red' |

## Left out

- The SQLite connection and table creation (xpoint.rb:3, 7-38) are not modelled. This is I/O through a foreign library. The tables are sequences in memory, and row ids are assigned 1, 2, ... in insertion order, as SQLite does for a table without deletions.
- `Project.all` (xpoint.rb:46-48) only returns the whole table. In the model that is the `Registry.projects` field itself.
- The clocks are parameters. `Time.now` for open entries (xpoint.rb:95) becomes `now`, in whole minutes since midnight of the day the report runs, so its seconds are dropped (effect on the status below). `DateTime.now.to_s` for the edit stamp (xpoint.rb:83) becomes the `editDate` text. Ruby reads `Time.now` once per open entry; the model uses one `now` per report.
- `Reports.DailySummary`: `now` is a whole minute, so the seconds of `Time.now` are dropped. For a day with an open entry Ruby's work time is fractional minutes, and `round(2)` calls it equal to the target within about 18 seconds either side (for example 7.9972 h rounds to 8.0 and gives 'blue'); the model gives 'blue' only at the exact minute and 'red' one minute earlier.
- Daylight-saving changes are not modelled. `Time.parse` (xpoint.rb:94-95) builds local times, so across a change of offset `end - start` differs from the difference of the clock readings by the shift. The model takes the difference of the clock readings.
- Floating point is not modelled. Durations are exact minutes, and the float sum of the Ruby code is not reproduced. A day whose float sum misses a whole hour by rounding noise is classified here by the exact value.
- Reports.DailySummary: returns total, work and pause as exact minutes rather than as hours rounded to two decimals (xpoint.rb:118-120), because floating point is not modelled.
- `Time.parse` (xpoint.rb:94-95) is a general library parser. Only zero-padded "HH:MM" with hours 00-23 and minutes 00-59 is parsed. Any other text, including forms Ruby would accept such as "9:00" or "09:00:30", counts as unparsable.
- Ruby exceptions become error values. Time.parse raising becomes `UnparsableTime`. `.ceil` on an infinite or NaN quotient becomes `NoWorkDays` / `NoDailyHours`. `nil[4]` in `update` becomes `NoSuchEntry`.
- `weekly_hours.to_f` loses precision for integers beyond 2^53. The model divides exactly.
- Rows with equal start times: SQL leaves their order open. The model keeps them in table order, and its contract promises only sortedness and the same entries.
- Ruby's dynamic typing is not modelled (for example `nil` or non-integer arguments). Arguments have the types of the table columns.
- Weekly and monthly summaries and chart rendering do not exist in the code (xpoint.rb:126), so they are not modelled.
