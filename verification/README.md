# Attendance core, modelled in Dafny

This project models the attendance decision and aggregation layer of a small
HR web application for a Vietnamese office. Employees check in and out from a
dashboard. An administrator edits single days, bulk-assigns statuses, and
reads monthly statistics, a timeline grid and its spreadsheet export. Leave
and overtime requests, the employee directory and the password change follow
the same pattern.

The data-access module is modelled as pure transitions over an explicit
store. The attendance table is a sequence of rows. Reading it folds the rows
into a map from employee, to month, to two-digit day, to record, and the
last row for a key wins. Writing `null` deletes a key. Any other write is an
upsert on (employee, month, day) that merges: it sends the status, the time
and only the optional columns the client object defines, and a column it
does not send keeps its old value (NULL on a new row). The clock, the GPS
fix and the store's answers are parameters.

Each page keeps its own counting rules, and the model keeps them separate:

- the day editor counts present 1, half day 0.5 and late 1, and weights overtime by its multiplier;
- the dashboard card counts a half day as present;
- the timeline counts late as 0 and sums raw overtime hours;
- the statistics page keeps per-department and per-day buckets and never counts an early leave.

Modules:

- `Wrappers`: `Option` and `Result`.
- `Types`: the records, statuses, roles, settings and requests. It also holds:
  - JavaScript truthiness of numbers, including NaN;
  - `Math.round`;
  - the short status labels;
  - the "a User sees only themselves" scope.
- `Text`: decimal rendering, two-digit padding, `parseFloat` and `Number` on strings, `split`/`join`, lower-casing of the capitals Vietnamese uses, and string comparison.
- `Calendar`: month lengths, the weekday (0 = Sunday), next and previous day.
- `Tally`: counts and sums over sequences, and their independence from enumeration order (`Object.values`).
- `Store`: the data-access functions.
- `Dashboard`, `AttendancePage`, `Bulk`, `Statistics`, `Timeline`, `Requests`, `Employees`, `Profile`: one module per page.

## Model

| member | source | states |
|---|---|---|
| Store.FoldRowsLookup | services/api.ts:169-189 | a key is absent from the folded map iff no row carries it; otherwise it maps to the record of the last row with that key |
| Store.GetAllAttendance | services/api.ts:164-197 | a failed fetch gives the empty map; a successful one gives exactly the keys present in the rows, each with its last row's record |
| Store.MonthOf | services/api.ts:176-186 | one employee's month holds a day exactly when the folded map has that (employee, month, day) key, with the same record |
| Store.SaveAttendance | services/api.ts:199-236 | a null record is a delete of exactly the (employee, month, day) key; any other record is an upsert on that key sending the record with exactly the optional columns the caller defined |
| Store.Stored | services/api.ts:210-228 | after an upsert the key holds the payload's status and time and the columns it sent; every column not sent keeps its old value, or is NULL when the key had no row |
| Store.StoredAllSent | services/api.ts:218-228 | a payload that sends every optional column replaces the old record whole |
| Store.StoredNew | services/api.ts:218-228 | on a key without a row, a payload whose unsent columns are NULL stores exactly its record |
| Store.StoredTwice | services/api.ts:226-228 | upserting the same payload twice stores what upserting it once does |
| Store.SaveThenRead | services/api.ts:199-236 | after a save, every other key reads as before; after a delete the key is empty; after an upsert the key has the saved status and time, the sent columns as saved, and the other columns as before (NULL for a new row) |
| Store.SaveWholeThenRead | services/api.ts:210-228 | saving a record with every optional column defined and reading it back gives exactly that record |
| Store.RemoveKeyLookup | services/api.ts:201-206 | deleting a key's rows empties that key and leaves every other key's lookup unchanged |
| Store.ApplyLookup | services/api.ts:201-228 | a delete empties its key, an upsert sets its key to the old record merged with the payload, and all other keys keep their values |
| Store.DateKeyIgnoresYear | services/api.ts:243-245 | two valid dates with the same month and day but different years get the same key, so they collide |
| Store.DateKeyInjective | services/api.ts:243-245 | equal keys mean the same month and day |
| Store.FanOutLength | services/api.ts:240-255 | bulk save builds exactly employees × dates rows |
| Store.FanOutIndex | services/api.ts:240-255 | the row at position i·|dates| + j belongs to employee i and date j (employee-major order) |
| Store.FanOutElement | services/api.ts:240-255 | every bulk row is the row of some listed employee for some listed date |
| Store.FanOutRecords | services/api.ts:246-253 | every bulk row carries the same record, the template's status, timestamp and overtime with hours defaulting to 0 and multiplier to 1.5, and sends exactly the two overtime columns |
| Store.SaveBulkAttendance | services/api.ts:238-267 | nothing is written iff the employee or date list is empty; otherwise the batch is the fan-out |
| Store.ApplyUniformBatch | services/api.ts:257-260 | upserting rows that all send the same record and columns merges that record into every key of the batch, once, and leaves all other keys unchanged |
| Store.BulkSaveThenRead | services/api.ts:238-267 | after a bulk save, every (employee, date) key reads the bulk status, time and overtime and keeps its check-out time, position, device and distance (NULL for a new row); any key outside the product reads as before |
| Store.SettingsMapLastWins | services/api.ts:129-131 | a settings key is in the map iff some row has it, and then holds the value of the last such row |
| Store.GetSettings | services/api.ts:119-143 | a failed fetch, or rows without any of the five keys, give the defaults 08:00 / 17:30 / 0 / 0 / 100; otherwise each setting is read from the last row with its key: a time is that row's non-empty text, a number what `parseFloat` reads from it, and a missing or empty value gives the default |
| Store.ReadNumberLast | services/api.ts:137-139 | a number setting is the last row's value as `parseFloat` reads it, or the default when no row has the key or its value is empty |
| Store.ReadTimeLast | services/api.ts:135-136 | a time setting is the last row's text when it is not empty, otherwise the default |
| Store.SaveSettings | services/api.ts:145-160 | the save writes five rows, all under keys that the read consults |
| Store.SaveSettingsMap | services/api.ts:147-153 | the saved rows map exactly the five setting keys to the rendered values |
| Store.ReadSaved | services/api.ts:133-139 | the five cells the save writes read back as the saved settings, an empty start or end time replaced by its default |
| Store.SettingsRoundTrip | services/api.ts:134-138 | saving settings over any stored rows and reading them back gives the same settings, except that an empty start or end time reads back as its default |
| Store.CreateRequest | services/api.ts:294-309 | a created request is pending and carries the employee, kind, dates and reason it was given |
| Store.UpdateRequestStatus | services/api.ts:311-322 | only the request with the given id changes, and only its status |
| Store.ScheduleRangeExact | services/api.ts:341-344 | a date of the same year lies in the `YYYY-MM-01`..`YYYY-MM-31` range iff its month is the queried one |
| Dashboard.HandleAction | pages/Dashboard.tsx:88-175 | checks run in order (settings missing, then no location, then a check-out without a check-in), and the action succeeds iff all pass; a far-away fix only sets the warning flag; the save is an upsert of the saved record under today's key; check-in saves late iff after the start time, else present, with the fix, the device, the rounded distance and no overtime, sending only those columns; check-out keeps every field of today's record, sets the check-out time, sets early leave iff before the end time, and sends every column |
| Dashboard.CheckInRecord | pages/Dashboard.tsx:116-128 | late iff after the start time, else present; the time, the fix and the device as given; the distance rounded, and 0 without a configured office; no check-out time and no overtime |
| Dashboard.CheckInStored | pages/Dashboard.tsx:121-128 | a check-in over an existing day replaces its status, time, position, device and distance and keeps its check-out time and overtime; on a new day it stores exactly the check-in record |
| Dashboard.CheckInThenRead | pages/Dashboard.tsx:121-148 | after a saved check-in, today's record has the check-in's status, time, position, device and distance, and the check-out time and overtime the day held before (exactly the check-in record on a new day) |
| Dashboard.CheckOutThenRead | pages/Dashboard.tsx:136-143 | a saved check-out reads back as exactly the record it saved |
| Dashboard.LateIffAfterStart | pages/Dashboard.tsx:118-119 | late iff the minute of day is strictly after the start's, so exactly the start time is present |
| Dashboard.EarlyIffBeforeEnd | pages/Dashboard.tsx:131-132 | early iff the minute of day is strictly before the end's |
| Dashboard.UnreadableHour | pages/Dashboard.tsx:118-119 | a start or end hour that reads as NaN makes every comparison false: never late, never early |
| Dashboard.ParseClockOfPadded | pages/Dashboard.tsx:118 | splitting a zero-padded "HH:MM" at the colon and reading both parts gives back the hour and minute |
| Dashboard.CheckOutNeverClearsLate | pages/Dashboard.tsx:136-140 | a late record stays late or becomes early leave at check-out; it never becomes present |
| Dashboard.CheckInThenCheckOut | pages/Dashboard.tsx:109-143 | checking in and then out the same day saves the check-out time with the check-in's time, position, device and distance, and the overtime the day held before the check-in (none on a new day) |
| Dashboard.TodayRecord | pages/Dashboard.tsx:34-42 | today's record is the store's record under (user, month, two-digit day) |
| Dashboard.OfficeDistance | pages/Dashboard.tsx:100-103 | the distance is 0 unless both office coordinates are truthy, and then is the measured one |
| Dashboard.CountMonth | pages/Dashboard.tsx:46-52 | the card counts present-or-half-day, late and absent records; nothing else counts |
| Dashboard.MonthCard | pages/Dashboard.tsx:45-53 | the card's figures are the counts over the month's records, whatever order the keys are enumerated in, and total at most the number of days stored |
| Dashboard.CardPartition | pages/Dashboard.tsx:48-50 | present, late, absent and uncounted records split the month's records exactly |
| Dashboard.MonthCardOrderFree | pages/Dashboard.tsx:47 | the card does not depend on the key order `Object.values` uses |
| Dashboard.GreetingAt | pages/Dashboard.tsx:177-182 | morning iff hour < 12, afternoon iff 12 ≤ hour < 18, evening iff hour ≥ 18 |
| Dashboard.GreetingMonotone | pages/Dashboard.tsx:177-182 | as the hour grows the greeting never moves back: morning, then afternoon, then evening |
| Dashboard.GreetingReached | pages/Dashboard.tsx:177-182 | each of the three greetings is shown at some hour 0..23 |
| Types.Round | pages/Dashboard.tsx:127 | the rounded distance is within half a unit of the real one, halves rounding up |
| AttendancePage.InitialSelection | pages/Attendance.tsx:28-38 | a User gets their own id when listed, else the first employee; an Admin gets the first employee; nothing when the list is empty |
| AttendancePage.FindEmployee | pages/Attendance.tsx:32 | an employee of the list with that id, or none exactly when no employee has it |
| AttendancePage.DateClick | pages/Attendance.tsx:77-97 | a User's click opens nothing; an Admin's opens the date with the stored multiplier when the day has overtime, else with the Sunday/weekday suggestion |
| AttendancePage.EditorMultiplier | pages/Attendance.tsx:86-94 | the editor's multiplier reads as the stored one (or 1.5) when the day has overtime, otherwise as 2.0 exactly on Sunday and 1.5 on every other day |
| AttendancePage.StatusSelect | pages/Attendance.tsx:99-129 | "clear" deletes the day's key; a status upserts that status and timestamp, and sends the overtime hours (> 0) and multiplier exactly when the typed hours read as a number > 0, and no other column; nothing happens without an open date and a selected employee |
| AttendancePage.RemarkKeepsColumns | pages/Attendance.tsx:109-121 | re-marking a recorded day without overtime changes only its status and time; its overtime, check-out time, position, device and distance stay |
| AttendancePage.ClearThenRead | pages/Attendance.tsx:106-108 | after "clear", the day reads as empty |
| AttendancePage.MonthTotals | pages/Attendance.tsx:136-143 | in exact arithmetic, work days are 1 per present, 0.5 per half day and 1 per late, and overtime is hours × (multiplier or 1) summed over records with hours |
| AttendancePage.WorkDaysBound | pages/Attendance.tsx:136-140 | the three counted statuses never exceed the number of records |
| AttendancePage.MonthTotalsOrderFree | pages/Attendance.tsx:136-143 | in exact arithmetic, both totals are independent of the order the month's values are enumerated in |
| AttendancePage.StartingEmptyCells | pages/Attendance.tsx:73-75 | the calendar's leading blank cells number 0..6, and are 0 iff the month starts on a Monday |
| Calendar.DaysInMonthIsDayZero | pages/Statistics.tsx:56 | a month's length is the day before the first of the next month, between 28 and 31, with February 29 exactly in leap years |
| Calendar.NextDayWeekday | pages/Attendance.tsx:74 | consecutive dates have consecutive weekdays across month and year ends |
| Calendar.NextPrevInverse | pages/BulkAttendance.tsx:54-55 | stepping one day back and forward are inverse |
| Bulk.Toggle | pages/BulkAttendance.tsx:41-47 | toggling flips membership of that id only and keeps the selection free of duplicates |
| Bulk.ToggleTwice | pages/BulkAttendance.tsx:41-47 | toggling twice restores the selected set, and the exact list when the id was absent |
| Bulk.ToggleDate | pages/BulkAttendance.tsx:54-60 | toggling a day flips membership of that date only |
| Bulk.ToggleAll | pages/BulkAttendance.tsx:49-52 | when the selection has as many entries as there are employees it is emptied; otherwise it becomes exactly the employee ids |
| Bulk.LoadEmployees | pages/BulkAttendance.tsx:23-39 | a User's list is exactly the employees with their id, and they are preselected when listed; an Admin's is everyone, none selected |
| Bulk.TemplateRecord | pages/BulkAttendance.tsx:70-76 | the record carries the chosen status and timestamp, and has overtime fields iff the overtime input is non-empty |
| Bulk.SubmittedRecord | pages/BulkAttendance.tsx:70-76 | the stored record has the chosen status and time, hours 0 and multiplier 1.5 when overtime was left empty, and otherwise the values typed (0 and 1.5 when they do not read as non-zero numbers), and no other column |
| Bulk.Submit | pages/BulkAttendance.tsx:62-89 | submit is rejected iff no employee or no date is selected; otherwise it sends employees × dates rows all carrying the stored record and sending exactly the overtime columns |
| Bulk.AfterSubmit | pages/BulkAttendance.tsx:81-84 | after a save the dates are cleared and the employee selection is cleared only for an Admin; a failed save changes nothing |
| Bulk.UserKeepsSelection | pages/BulkAttendance.tsx:81-84 | a User can submit again straight after a save by picking a new day |
| Bulk.SubmittedDateShifts | pages/BulkAttendance.tsx:54-60 | as written, the saved day is the picked day at UTC and the previous day at any other time-zone offset |
| Bulk.SubmittedDateShiftExample | pages/BulkAttendance.tsx:68 | at UTC+7, picking 15 May 2024 saves 14 May |
| Bulk.DateTextRoundTrip | pages/BulkAttendance.tsx:54-60 | a local-date key splits and parses back to the same date |
| Bulk.SubmittedDate | services/api.ts:243-244 | with local-date keys, the saved day is the picked day |
| Types.Scope | pages/Statistics.tsx:46-49 | for a User session the employees in scope are exactly those whose id is the session's user id; otherwise everyone |
| Types.WithId | pages/BulkAttendance.tsx:28 | the employees kept are exactly those carrying the id |
| Types.ShortLabelInjective | constants.ts:4-47 | the short labels are one character each and tell every status apart |
| Statistics.GroupKey | pages/Statistics.tsx:65 | a User's records go to the personal bucket, everyone else's to their department |
| Statistics.Contribution | pages/Statistics.tsx:74-92 | present and half day count as present; late, absent and leave each have their own counter; early leave counts nowhere |
| Statistics.MarkCountsSum | pages/Statistics.tsx:117 | the four counters add up to the number of counted records |
| Statistics.DayMarks | pages/Statistics.tsx:70-73 | each mark comes from a stored day in the scanned range and carries that day's status |
| Statistics.DayMarksOnlyScanDays | pages/Statistics.tsx:70 | records outside days 1..n of the month do not affect the scan |
| Statistics.Register | pages/Statistics.tsx:67 | registering a group adds its bucket once and keeps the other buckets |
| Statistics.AddTo | pages/Statistics.tsx:76-91 | a count is added to the bucket of the group only |
| Statistics.SumDeptsAddTo | pages/Statistics.tsx:76-91 | adding to a registered bucket adds the same amount to the sum over buckets |
| Statistics.StepMarksConsistent | pages/Statistics.tsx:70-94 | scanning records keeps the bucket sums equal to the totals and the daily sums equal to the present and late totals |
| Statistics.StepEmployeesConsistent | pages/Statistics.tsx:63-95 | the employee loop keeps those equalities, and its totals are the counters over all marks |
| Statistics.FetchStatsFacts | pages/Statistics.tsx:39-124 | the daily series has one entry per day numbered 1..n; the totals are the counters over all records in scope; the buckets add up to the totals; the daily present and late add up to their totals; the summary total is the number of counted records |
| Statistics.UserSeesOnlyOwnData | pages/Statistics.tsx:46-49 | for a User session, changing anyone else's records does not change any figure |
| Statistics.Summary | pages/Statistics.tsx:116-122 | the summary total is present + late + absent + leave, each equal to its counter |
| Statistics.PresentShare | pages/Statistics.tsx:207 | the present percentage is 0 when nothing is counted, otherwise within half a point of present/total × 100 computed exactly, and lies in 0..100 |
| Statistics.Pie | pages/Statistics.tsx:98-103 | a pie slice appears iff its value is non-zero, carries that value, and appears once |
| Statistics.BarSumsOfDepts | pages/Statistics.tsx:105-110 | the bars' present, late and absent columns add up to those counters summed over the buckets |
| Statistics.BarsMatchSummary | pages/Statistics.tsx:98-122 | the bars' present, late and absent columns add up to the summary's present, late and absent |
| Timeline.DeptFilter | pages/Timeline.tsx:55-58 | "All" keeps every employee; otherwise exactly those of that department are kept |
| Timeline.Roster | pages/Timeline.tsx:29-32 | a User's grid shows only their own row; an Admin with "All" sees everyone |
| Timeline.GridWorkIsWorkDays | pages/Timeline.tsx:152-173 | the grid's running total is 1 per present plus 0.5 per half day over the month's records |
| Timeline.GridWorkBounds | pages/Timeline.tsx:172-173 | a row's work total is between 0 and the number of days scanned |
| Timeline.LateCountsNothing | pages/Timeline.tsx:172-173 | a late day adds to the work total exactly what an absent day adds, which is nothing |
| Timeline.WeekendIffCaption | pages/Timeline.tsx:138-142 | a column is shaded as weekend iff its caption is CN (Sunday) or T7 (Saturday) |
| Timeline.ShiftMonth | pages/Timeline.tsx:60-62 | moving by an offset gives a valid month whose month index is shifted by exactly that offset |
| Timeline.ShiftMonthBack | pages/Attendance.tsx:131-133 | moving forward and then back by the same offset returns to the same month |
| Timeline.Header | pages/Timeline.tsx:70 | the header has 3 + n + 2 cells: code, name and department, then the days 1..n, then the work and overtime totals |
| Timeline.ExportRow | pages/Timeline.tsx:73-93 | an employee's export line has 3 + n + 2 cells; each day cell is the short label of a stored record or empty; the work total counts present 1 and half day 0.5; the overtime total sums the raw hours in exact arithmetic |
| Timeline.ShortLabelNotEmpty | pages/Timeline.tsx:82-84 | a day cell is empty iff the day has no record |
| Timeline.ExportMatchesGrid | pages/Timeline.tsx:85-86 | the exported work total equals the total the grid shows |
| Timeline.DayColumns | pages/Timeline.tsx:75-90 | one cell per day 1..n, holding the short label of that day's record or nothing; the work total counts present 1 and half day 0.5, and the overtime total sums, in exact arithmetic, the raw hours of the days scanned |
| Timeline.Export | pages/Timeline.tsx:64-98 | the sheet is the header followed by one full export line per employee shown |
| Requests.Visible | pages/Requests.tsx:72-76 | a request is listed iff it passes the filter: a User's own only, and pending only under the pending filter |
| Requests.AdminSeesAll | pages/Requests.tsx:72-76 | an Admin with the "all" filter sees the whole list |
| Requests.PendingWithinAll | pages/Requests.tsx:72-76 | the pending list is the "all" list with the non-pending requests dropped |
| Requests.HandleCreate | pages/Requests.tsx:41-61 | nothing is sent iff the start date, end date or reason is empty; a sent request carries the session's user id; after a stored create the form resets to an empty leave request and the dialog closes |
| Requests.CreatedIsVisible | pages/Requests.tsx:41-61 | a new request shows in its creator's list under both filters |
| Requests.DecidedOnce | pages/Requests.tsx:134-142 | once approved or rejected, a request is never offered for a decision again |
| Requests.DecisionLeavesOthers | pages/Requests.tsx:63-70 | deciding one request changes no other request and whether it can be decided |
| Requests.ShownSpan | pages/Requests.tsx:125-127 | a request is shown as a single day iff its start and end dates are equal |
| Employees.Search | pages/Employees.tsx:80-83 | an employee is listed iff the lower-cased text occurs in the lower-cased name or code |
| Employees.SearchIgnoresCase | pages/Employees.tsx:80-83 | lower-casing the search text first lists the same employees |
| Text.LowerChar | pages/Employees.tsx:81-82 | a capital (ASCII, Latin-1, Ă Đ Ĩ Ũ Ơ Ư, and Ạ to Ỹ) becomes a different, non-capital letter 32 or 1 code point on; every other character is kept |
| Text.ToLowerIdempotent | pages/Employees.tsx:81-82 | lower-casing twice is lower-casing once |
| Employees.EmptySearchKeepsAll | pages/Employees.tsx:80-83 | an empty search box lists everyone, in order |
| Employees.CodeFindsEmployee | pages/Employees.tsx:80-83 | typing an employee's code in any letter case finds them |
| Employees.OpenForm | pages/Employees.tsx:27-39 | a new form starts as a User with an empty department; an edit form holds the employee's fields |
| Employees.HandleSave | pages/Employees.tsx:41-66 | the save is refused iff the name, code or department is empty; an edit keeps the id; a new employee gets an "ID"-prefixed id; the role defaults to User |
| Employees.EditRoundTrip | pages/Employees.tsx:27-52 | opening an employee and saving unchanged stores the same employee |
| Employees.NewId | pages/Employees.tsx:48 | "ID" followed by the decimal digits of the draw, without a leading zero |
| Profile.HandleChangePassword | pages/Profile.tsx:18-38 | refused as too short iff under 3 UTF-16 code units; refused as a mismatch iff long enough but not confirmed; otherwise the user's password is changed to the new one; both fields are cleared after a stored change |
| Profile.Utf16Length | pages/Profile.tsx:19 | the length counts each character once, or twice outside the Basic Multilingual Plane, so it lies between one and two per character |
| Profile.Utf16LengthAppend | pages/Profile.tsx:19 | the length of a concatenation is the sum of the lengths |
| Profile.TwoCharacterPasswords | pages/Profile.tsx:19-22 | a two-character password passes the length check iff one of its characters lies outside the Basic Multilingual Plane |
| Profile.SentPasswordConfirmed | pages/Profile.tsx:19-30 | a password that is sent was typed identically twice and has at least three code units, so at least two characters |
| Profile.ChangeTwiceRefused | pages/Profile.tsx:32 | after a successful change, pressing the button again is refused as too short |
| Text.JoinSplit | pages/Dashboard.tsx:118 | splitting at a separator and joining back gives the original text |
| Text.SplitJoin | pages/BulkAttendance.tsx:55 | joining separator-free parts and splitting gives the parts back |
| Text.ParseFloatOneDecimal | pages/Attendance.tsx:113-116 | `parseFloat` reads a digit, a point and a digit as that decimal number |
| Text.ToNumberPadStart2 | pages/Dashboard.tsx:118 | `Number` reads a zero-padded number back as itself |
| Text.LexLePadStart2 | services/api.ts:343-344 | zero-padded two-digit numbers compare as strings the way they compare as numbers |

## Left out

- The haversine distance (pages/Dashboard.tsx:73-86) is floating-point trigonometry. The measured distance is a real-valued input.
- Statistics.PresentShare: computes present/total × 100 in exact arithmetic. The page divides and multiplies in doubles, so when the exact value is a half (23 of 40 is 57.5) the double can fall just below it and the page shows one point less (57 where the model gives 58).
- AttendancePage.MonthTotals: computes the overtime total in exact arithmetic. The page sums doubles and renders the sum as it is, so 1.1 hours at 1.5 shows as 1.6500000000000001.
- AttendancePage.MonthTotalsOrderFree: order independence of the overtime total holds in exact arithmetic only; a sum of doubles can depend on the order the records are visited in.
- Timeline.DayColumns: computes the raw overtime sum in exact arithmetic, where the page sums doubles.
- Timeline.ExportRow: the exported overtime total is the exact sum, where the sheet receives a sum of doubles.
- Store.ScheduleRangeExact: assumes the schedule date column compares as text. Were it a SQL date, the upper bound "YYYY-MM-31" would be invalid in months shorter than 31 days, the query would fail, and the schedules read would be empty.
- All store, realtime and geolocation calls are I/O. The store's answers are parameters: a `Result` for a fetch, a `stored` flag for a write. The GPS fix is an `Option`. Reload races are not modelled.
- Locale time formatting (`toLocaleTimeString`) is left out: timestamps are opaque strings.
- Employees.NewId: the random draw behind `Math.random` is a parameter below 10000, because it is nondeterministic.
- The fake trend badge (pages/Statistics.tsx:349) and the mock data file are nondeterministic or test data.
- Store.ApplyBatch: a batch with two rows on the same key (the same day in two years) is applied row by row; the store rejects such a batch as a whole, since one statement cannot update a row twice.
- Dashboard.HandleAction: a check-out spreads today's record as read from the store, with every column present. Between a check-in and the re-read, the page holds the check-in object, which lacks some columns; a check-out in that window is not modelled.
- Bulk.Submit: rows are keyed by the corrected local-date handling of Bulk.SubmittedDate, not by the as-written UTC shift of Bulk.SubmittedDateShifts; the shift is stated under Findings.
- Employees.Search: only the capitals Vietnamese uses are lower-cased (ASCII, Latin-1, Ă Đ Ĩ Ũ Ơ Ư, and Ạ to Ỹ). Other scripts and the multi-character mappings of `toLowerCase` (İ, say) are not modelled.
- Store.GetSettings: a number rendered under one of the two time keys, which no save writes, is not modelled.
- Text.ParseFloat: exponents, hexadecimal and `Infinity` are not modelled. No value these pages read uses them.
- Statistics.Bars: buckets are listed in insertion order. JavaScript lists integer-like object keys first; department names are not expected to look like numbers.
- Bulk.DateTextRoundTrip: years below 0 are excluded, since `toISOString` renders them differently.
- Dashboard.TodayRecord: the page keeps a previously loaded record when the store no longer has one. That stale state is not modelled: the model reads the store each time.
- Dashboard.MonthCard: the page leaves the previous figures on the card when the user has no records for the month. The model gives zeros.
- Shift schedules, login, the settings form, routing, the layout and all rendering are UI or I/O with no rule to verify.
- Employee deletion (pages/Employees.tsx:68-78) is a confirmed store call with no rule to verify.

## Findings

| source | as written | input that shows it | evidently intended | confidence | as-written member | corrected member |
|---|---|---|---|---|---|---|
| pages/BulkAttendance.tsx:54-60, 68 with services/api.ts:243-244 | a picked day is keyed by the UTC date of local midnight (`toISOString`); the key is parsed back as UTC midnight and its local date is saved | time zone UTC+7, picked 15 May 2024: the key is "2024-05-14" and the saved day is 14 May | the saved day is the day picked | not executed | Bulk.SubmittedDateShifts | Bulk.SubmittedDate |
