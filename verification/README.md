# Attendance ledger and its derived views

A Dafny model of the core of a spreadsheet-backed time clock. Employees
clock in and out from a web page; every request reads the MAIN sheet, a
list of rows `[employee, clockIn, clockOut, clockInLocation,
clockOutLocation, hours]`, and either appends one open row, closes one open
row, or refuses. After each successful request the totals, daily, weekly
and monthly summary sheets are cleared and recomputed from the MAIN sheet.
A status query, a statistics panel and a five-minute cache of employee ids
serve the page.

The model is functional. The MAIN sheet below its header is a
`seq<Record>` (`Ledger.Ledger`). Clock operations are functions returning
`(new ledger, reply)`. Every summary view is a fold over the ledger.

| module | file | what it holds |
|---|---|---|
| `Options` | options.dfy | `Option`, for empty cells and cache slots |
| `Calendar` | calendar.dfy | milliseconds, local days, weekdays, week start, (year, month), rounding to hundredths |
| `Ledger` | ledger.dfy | `Record`, the backward scan `LastWhere`, the open-session invariants |
| `Clock` | clock.dfy | `ClockIn`, `ClockOut`, their missing-sheet variants, and lemmas over series of requests |
| `Summaries` | summaries.dfy | totals, daily, weekly and monthly views, and their reference sums |
| `Queries` | queries.dfy | employee status and the statistics counters |
| `Directory` | directory.dfy | the employee-id cache |

Representation choices:

- Time is an integer number of milliseconds in the script's local time zone.
  A day is `t / MsPerDay`. Day 0 is 1970-01-01, a Thursday. Months and years
  come from the usual days-to-civil-date conversion.
- An hours cell holds an integer number of hundredths of an hour. 0 stands
  for both the blank cell and a stored `0.00`. In the source both are falsy,
  and every reader treats them alike (`if (rate && name)`, `allData[i][5] || 0`).
  So a session that rounds to 0.00 hours adds nothing and counts no day worked.
  This rests on the sheet turning the `toFixed(2)` string into a number. The
  same conversion affects numeric-looking ids; see "## Left out".
- A clock-out cell is `Option<Time>`: `None` is the empty cell of an open session.
- The location strings are parameters. The geocoder is outside the model.

Some behaviour of the code differs from what a reader might expect. The
model follows the code in each case:

- The weekly view counts every row clocked in at or after Monday 00:00. It has
  no upper bound on the date.
- The weekly and monthly views do not require an employee id. Only the totals
  view skips rows with an empty name.
- A negative session length (clock-out before clock-in) is stored as it is.
  Nothing rejects it.
- A failed directory read returns an empty list and leaves the cache alone.
  It does not fall back to the previous cached list.
- A cached list is served only while its time stamp is non-zero (JavaScript
  treats 0 as false). An empty cached list is still served, since an empty
  array counts as true.
- The source takes no lock around its read, scan and write. The model serves
  requests one at a time; see `Clock.Run`.

## Model

| member | source | states |
|---|---|---|
| Calendar.DayOf | code.js:286-291 | a timestamp lies between the midnight that starts its day and the next midnight, which is what `setHours(0, 0, 0, 0)` compares |
| Calendar.Weekday | code.js:339 | the weekday is a `getDay` number in 0..6, and day 0 (1 January 1970) is a Thursday |
| Calendar.WeekdayShift | code.js:339 | moving any number of days forward or back moves the weekday by the same amount, modulo 7 |
| Calendar.MondayOffset | code.js:339-340 | the offset is in [-6, 0]; it is -6 exactly on a Sunday and 0 exactly on a Monday; day plus offset is always a Monday |
| Calendar.WeekStart | code.js:338-343 | the week start is a Monday at most six days before today, and no Monday lies between it and today |
| Calendar.WeekStartIsSharedByTheWeek | code.js:339-343 | every day from a Monday to the following Sunday has that Monday as its week start, so a Sunday belongs to the preceding Monday's week |
| Calendar.RoundDiv | code.js:378 | the rounded quotient is within half a unit of the exact one and keeps the sign of the dividend |
| Calendar.Hundredths | code.js:150-154 | the stored hours are within half a hundredth of an hour of the exact session length, and are non-negative when clock-out is not before clock-in |
| Calendar.CivilFromDays | code.js:419-420 | every day has a date whose month is 1..12 and whose day of month is 1..31 |
| Calendar.CivilRoundTrip | code.js:419-420 | converting a day to its date and back with the inverse `DaysFromCivil` gives the same day |
| Calendar.CivilFromDaysIsInjective | code.js:426-427 | two days with the same date are the same day |
| Calendar.MonthKey | code.js:419-420 | the (year, month) key of a day is its date's year and its month, which is 1..12 (`getMonth` plus one) |
| Calendar.EpochSample | code.js:419-420 | day 0 is Thursday 1 January 1970 |
| Calendar.LeapDaySample | code.js:426-427 | day 19782 is 29 February 2024, so a leap day falls in February |
| Calendar.MondaySample | code.js:341-343 | day 20731 is 5 October 2026, and its weekday is Monday |
| Calendar.OctoberSample | code.js:339 | day 20736 is Saturday 10 October 2026, using JavaScript's weekday numbering |
| Calendar.WeekSample | code.js:339-343 | Saturday 10 and Sunday 11 October 2026 both start their week on Monday 5 October |
| Calendar.MonthStartSample | code.js:418-427 | 1 October 2026 has the same (year, month) as 10 October |
| Calendar.MonthEndSample | code.js:418-427 | 30 September 2026 has a different month, so it falls outside October's view |
| Ledger.LastWhere | code.js:81-82 | the scan returns the highest index satisfying the test, and returns None exactly when no row does |
| Ledger.ConsistentHasAtMostOneOpen | code.js:81-91 | if every open row is the last row of its employee, no employee has two open rows |
| Clock.ClockIn | code.js:81-91 | if the employee has an open row, the ledger is unchanged and the reply carries the latest open row's clock-in time; otherwise exactly `[employee, now, "", location, "", ""]` is appended and no earlier row changes; the reply always carries `now` and the employee |
| Clock.ClockOut | code.js:144-169 | with no open row, the ledger is unchanged and the reply asks to clock in first, with an empty time; otherwise only the latest open row changes, getting clock-out `now`, the new location and the rounded hours, and keeping its employee, clock-in time and clock-in location |
| Clock.ClockInOnSheet | code.js:59-68 | a missing MAIN sheet is created, and the request then acts as on an empty ledger |
| Clock.ClockOutOnSheet | code.js:127-132 | a clock-out with no MAIN sheet gets the error reply, and no sheet is created |
| Clock.ClockInKeepsAtMostOneOpen | code.js:81-91 | if no employee had two open rows before a clock-in, none has after |
| Clock.ClockOutKeepsAtMostOneOpen | code.js:144-162 | if no employee had two open rows before a clock-out, none has after |
| Clock.ClockInKeepsConsistent | code.js:81-91 | a clock-in keeps each open row as the last row of its employee, with blank hours |
| Clock.ClockOutKeepsConsistent | code.js:144-162 | a clock-out keeps each open row as the last row of its employee, with blank hours |
| Clock.RunKeepsOneOpenSession | code.js:43-181 | after any series of clock-in and clock-out requests from a consistent ledger, such as an empty sheet, no employee has two open rows |
| Clock.SecondClockInIsRejected | code.js:81-86 | a second clock-in right after a successful one changes nothing and reports the first clock-in's time |
| Clock.ClockInThenOut | code.js:144-154 | a clock-in followed by a clock-out appends exactly one closed row, with both times, both locations and the rounded session hours |
| Clock.TwoHourSession | code.js:150-154 | a session of exactly two hours stores 2.00 hours |
| Clock.SecondClockOutIsRejected | code.js:144-169 | when no employee has two open rows, a second clock-out right after a successful one finds nothing to close and changes nothing |
| Summaries.Totals | code.js:221-232 | the totals view has an entry for exactly the names that have a row with a name and non-blank hours |
| Summaries.TotalsAreSums | code.js:221-232 | each employee's total equals the sum of the hours over that employee's rows that have hours; every other name totals 0 |
| Summaries.TotalsSample | code.js:225-230 | two sessions of 3.00 and 1.50 hours total 4.50 hours |
| Summaries.TotalsIgnoreClockIn | code.js:225 | a clock-in leaves the totals unchanged, since an open row has no hours |
| Summaries.TotalsAfterClockOut | code.js:221-232 | on a consistent ledger, a clock-out adds the closed session's hours to that employee's total and to no other |
| Summaries.Daily | code.js:286-302 | the daily view holds a row for every ledger row clocked in today and nothing else; each is marked Complete exactly when it has a clock-out |
| Summaries.DailyOfConcat | code.js:287-301 | the daily view of two ledgers back to back is their two daily views back to back, so rows are neither reordered nor merged |
| Summaries.DailyAfterClockIn | code.js:287-301 | a clock-in today adds one "Clock In Only" row, with no clock-out and 0 hours, at the end of the daily view |
| Summaries.Tallies | code.js:346-366 | a period view has an entry for exactly the employees with a counted row; each entry's days-worked counter equals its number of distinct dates and is positive |
| Summaries.TalliesAreSums | code.js:346-366 | each employee's period total is the sum of the hours of that employee's counted rows, and its dates are the distinct days of those rows |
| Summaries.DaysWorkedAreDistinctDates | code.js:359-364 | days worked equals the number of distinct dates among the employee's counted rows |
| Summaries.Average | code.js:378 | the average is 0 when no day was worked; otherwise it is within half a hundredth of total divided by days worked |
| Summaries.InWeekOf | code.js:349 | a clock-in is in the week exactly when its day is on or after the Monday that starts today's week; today itself is in it |
| Summaries.InMonthOf | code.js:426-427 | a clock-in is in the month exactly when its date has today's year and month; today itself is in it |
| Summaries.Weekly | code.js:333-366 | the weekly view has an entry for exactly the employees with a row that has hours and was clocked in on or after this week's Monday |
| Summaries.Monthly | code.js:414-446 | the monthly view has an entry for exactly the employees with a row that has hours and was clocked in during today's month and year |
| Summaries.WeeklyStartsOnMonday | code.js:337-350 | every date in the weekly view is on or after the Monday that starts today's week |
| Summaries.WeeklyCountsTheWholeWeek | code.js:346-350 | every row with hours clocked in on or after that Monday gives its employee a weekly entry |
| Summaries.MonthlyStaysInMonth | code.js:418-428 | every date in the monthly view has today's month and year |
| Summaries.MonthlyCountsTheWholeMonth | code.js:423-428 | every row with hours clocked in during today's month and year gives its employee a monthly entry |
| Queries.StatusOf | code.js:607-635 | the status depends on the employee's latest row alone: clocked out with its times and hours when it has a clock-out, clocked in with 0 hours when it is open, and no records exactly when the employee has no row |
| Queries.StatusIgnoresOtherEmployees | code.js:608-609 | rows of other employees added after the employee's rows do not change the status |
| Queries.StatusAfterClockIn | code.js:619-627 | right after a successful clock-in, the employee is clocked in since that moment |
| Queries.StatusAfterClockOut | code.js:610-618 | right after a successful clock-out on a consistent ledger, the employee is clocked out at that moment, with the session's hours |
| Queries.AttendanceStats | code.js:552-580 | total records is the number of rows; today's records is the length of the daily view; active employees is the number of distinct non-empty ids; neither count exceeds the total |
| Queries.AttendanceStatsOnSheet | code.js:543-550 | with no MAIN sheet all counters are 0 |
| Directory.NonBlank | code.js:523 | the filtered list keeps exactly the non-blank ids and never grows |
| Directory.NonBlankIsIdempotent | code.js:523 | filtering an already filtered list changes nothing |
| Directory.TrimStart | code.js:523 | the result is a suffix of the id, everything cut off is white space, and it does not start with white space |
| Directory.TrimEnd | code.js:523 | the result is a prefix of the id, everything cut off is white space, and it does not end with white space |
| Directory.BlankIffTrimsToEmpty | code.js:523 | an id is blank exactly when `trim` leaves the empty string, which is the filter's test |
| Directory.GetEmployeeIds | code.js:490-535 | a fresh cache answers unchanged; otherwise a successful read is filtered, stored and stamped `now`; a missing sheet yields the three sample ids; a failed read yields [] and leaves the cache alone; a cache holding no blank ids never returns or stores one |
| Directory.IsFresh | code.js:495-496 | the cache is served only when it holds a list, its time stamp is set and non-zero, and less than five minutes have passed |
| Directory.ServedFromCacheWithinWindow | code.js:495-498 | for five minutes after a refresh at a non-zero time, every request gets the same list back, whatever the sheet now holds |
| Directory.RereadAfterWindow | code.js:500-527 | once five minutes have passed, the next request reads the sheet again and stores its non-blank ids |
| Directory.BlankIdsAreDropped | code.js:522-523 | reading `["EMP001", " ", ""]` yields `["EMP001"]` |

## Left out

- token.js: diagnostics for a remote repository, with HTTP requests and logging. It has no ledger logic.
- `doGet`, `getClockStatus`, `sendAttendanceReport` and `formatDate`: page templating, a settings sheet, e-mail and date formatting.
- Sheet creation and headers, cell formatting, `SpreadsheetApp.flush`, and the clearing and writing of the summary ranges. Each view is a function of the ledger, so the clear-then-write step is the function's result.
- `synchronizeFormulas` as a sequence of calls. Each view it triggers is modelled separately, and none of them reads another.
- Reverse geocoding. The location is a string parameter.
- Message texts, and the formatted date strings in replies and views. Replies carry a status and a time; views carry day numbers.
- The `try`/`catch` replies for store failures (the "Error occurred…" rows). They are I/O failures.
- A missing MAIN sheet during aggregation: the source returns early and leaves each summary sheet as it was. A missing summary sheet is first created holding only its headers, and the view is then written as usual.
- The MAIN-sheet-missing message of the status query. It answers "no records" just as an empty ledger does.
- The `lastUpdate` field of the statistics, which is the formatted current time.
- The row order of the totals, weekly and monthly sheets. The source writes them in the key order of a JavaScript object: integer-like ids such as "42" first, in ascending numeric order, then every other id in insertion order. The model returns maps, which have no order.
- Summaries.Totals, Summaries.Tallies: the per-employee maps assume an id is an ordinary key. The source keeps them in plain objects, so an id named like an `Object.prototype` member behaves differently there. For "constructor" or "toString", `totals[name]` is already set and `+=` joins strings; the weekly and monthly views skip the initialisation, `.dates.has` throws, and the `catch` leaves those sheets as they were. An id "__proto__" never gets an entry. The model gives such ids a normal entry.
- Cells holding numbers where the model expects strings: numeric employee ids, and a numeric 0 in the directory column. A numeric-looking id such as "1001", if the page sends it as a string, is stored by `appendRow` as the number 1001. The strict `===` comparisons of the clock-in, clock-out and status scans then never match it, so each clock-in appends another open row. For such ids the at-most-one-open-session invariant (`Ledger.AtMostOneOpen`) does not hold in the source. The model compares ids as strings, as if the cell kept the string.
- The lifetime of the id cache. The cache is a script global, and each server call is a new script execution that starts with it empty. So the five-minute window of `Directory.GetEmployeeIds` applies within one execution. The model keeps the cache as a value passed from request to request.
- Daylight-saving changes. Time is already local milliseconds.
- Locking and concurrent requests. The source has none. The model serves requests one after another.
- Calendar.RoundDiv: states only the half-unit error bound and the sign. Floating-point `toFixed` may break ties either way, so the exact tie-breaking is not part of the contract.
- Calendar.Hundredths: as for RoundDiv, the rounding of an exact half-hundredth is not stated.
- Summaries.Average: as for RoundDiv, the tie-breaking of `toFixed(2)` is not stated.
- Directory.NonBlank: its contract states membership in both directions, not order. Order is kept, as the definition shows, and `NonBlankIsIdempotent` relates the filter to itself.
