# cpp-datetime in Dafny

A model of the calendar and clock value library `cpp-datetime` (`datetime.cpp`,
`datetime.h`), with proofs about it. The library has four value types:

- **TimeDiff**: a signed duration. It stores only a total number of seconds. Its
  constructor validates days, hours, minutes and seconds. Its accessors read the
  components back by C++'s truncating division, so a negative duration has
  non-positive components.
- **Time**: a time of day in seconds since midnight. Its `add_seconds` clamps into
  [0, 86399].
- **Date**: a day count from 0000-01-01 in the proleptic Gregorian calendar.
  - The constructor computes the count in closed form and then adds month lengths
    in a loop.
  - `year()`, `month()` and `day()` recover the date with two `while (true)` loops
    that peel off whole years and then whole months.
  - `weekday()` uses Zeller's congruence.
- **DateTime**: a Date and a Time together. Its `add_seconds` override carries whole
  days into the date. Subtracting two DateTimes borrows a day when the time part is
  behind. Adding a TimeDiff applies days, hours, minutes and seconds in that order.

## Module layout

| module | file | what it holds |
|---|---|---|
| `TruncDiv` | `trunc_div.dfy` | C++ `/` and `%` (truncation toward zero) next to Dafny's Euclidean ones |
| `Validation` | `validation.dfy` | `check_integer_range` and the errors the constructors throw |
| `Durations` | `durations.dfy` | the `TimeDiff` class and the truncating decomposition of a total |
| `Clock` | `clock.dfy` | the `Time` class and its clamp |
| `Gregorian` | `gregorian.dfy` | leap rule, month lengths, closed-form day count, the decomposition as recursive functions, Zeller's congruence |
| `Dates` | `dates.dfy` | the `Date` class: the constructor loop and the two decomposition loops, proved against `Gregorian` |
| `DateTimes` | `datetimes.dfy` | the `DateTime` class: the carry, the borrow and the arithmetic with durations |

How the model is built:

- **Mutable state.** Each C++ class is a Dafny class with the same single mutable
  field: `totalSeconds` for TimeDiff and Time, `totalDays` for Date. Mutators are
  methods with `modifies`. Their postconditions tie the new field value to a pure
  function of the old one (`Clamped` for Time, `Carry` for DateTime, `old + n` for
  `Date.AddDays` and `TimeDiff.AddSeconds`), and the properties of `Clamped` and
  `Carry` are proved as lemmas.
- **Throws.** A constructor throws when its input is invalid. This is modelled by a
  `...Check` function that returns the first failure in the source's own check order.
  The constructor requires that check to pass.
- **DateTime.** DateTime is modelled as composition: two fields, `date` and `time`,
  that the class owns. Its `add_minutes` and `add_hours` reach its own `AddSeconds`,
  just as the virtual call in `Time::add_hours` reaches the override.
- **Truncating division.** C++'s `/` and `%` are `TDiv` and `TMod` wherever the
  operand can be negative. Dafny's own operators are used where both operands are
  non-negative, and in `Gregorian.IsLeapYear`, which tests remainders against zero
  only: for any year, negative ones included, a truncating and a Euclidean remainder
  are zero together (`Gregorian.LeapRuleAsWritten`).

Three behaviours of the code a reader might not expect:

- **Carry on a negative exact multiple of a day.** For a negative sum, `add_seconds`
  uses truncating `/` and `%`. On a negative exact multiple of 86400 it borrows one
  extra day and leaves a time part of 86400. It does not stay in [0, 86400).
  See `Carry`, `CarryIsFloorSplit` and `CarryExactDayBack`.
- **Negative day counts.** The decomposition loops do not diverge on a negative
  count. They exit at once, and the count reads as year 0, month 1, day n + 1.
  See `Decompose`.
- **The `logic_error` branch of `weekday()`.** It is reachable. A negative count n
  reads as day n + 1 of January, year 0, whose Zeller sum is n + 36. For n ≤ −37 the
  sum is negative, and unless n + 36 is a multiple of 7 the truncated residue is
  negative too, so the default branch throws (`Gregorian.NegativeCountAsWritten`).
  See the second row of Findings.

## Model

| member | source | states |
|---|---|---|
| `TruncDiv.TDiv` | datetime.cpp:45-56 | C++ `a / b` for b > 0: the quotient truncated toward zero, bounded by the dividend from below for a ≥ 0 and from above for a < 0 |
| `TruncDiv.TMod` | datetime.cpp:48-56 | C++ `a % b`: a == b·(a / b) + r, with r in [0, b) for a ≥ 0 and in (−b, 0] for a < 0 |
| `TruncDiv.HoursFromMinutes` | datetime.cpp:38-43 | total_hours is total_minutes / 60 under truncation too |
| `TruncDiv.DaysFromHours` | datetime.cpp:41-47 | days() is total_hours / 24 under truncation too |
| `Validation.CheckRange` | datetime.cpp:10-16 | passes exactly when min ≤ value ≤ max; otherwise fails naming the field and both bounds |
| `Durations.TimeDiffCheck` | datetime.cpp:19-33 | the constructor passes iff hours ∈ [−23, 23], minutes and seconds ∈ [−59, 59], and `days` does not oppose a non-zero component in sign; the hour check is the first one reported; a sign failure implies all ranges held |
| `Durations.TimeDiffCheckExamples` | datetime.cpp:25-32 | TimeDiff(0,1,−1,0) is accepted (total 3540); TimeDiff(1,−1,0,0) fails on sign; an hour of 24 and a second of 60 fail on range |
| `Durations.TimeDiff.constructor` | datetime.cpp:19-33 | on valid input the total is ((d·24 + h)·60 + m)·60 + s |
| `Durations.PartsRecompose` | datetime.cpp:38-56 | for every total, ((days()·24 + hours())·60 + minutes())·60 + seconds() is the total; total_hours and total_minutes are the matching prefixes; the components lie in the constructor's ranges and share the total's sign |
| `Durations.PartsOfComponents` | datetime.cpp:19-56 | in-range components of one sign come back unchanged from the accessors |
| `Durations.PartsPassCheck` | datetime.cpp:89-91 | the negated components of any total pass the constructor, and total −t: `operator-` never throws |
| `Durations.NegativeTotalExample` | datetime.cpp:45-56 | −3661 s decomposes to 0 days, −1 h, −1 min, −1 s |
| `Durations.TimeDiff.Days` | datetime.cpp:45-47 | days() is the quotient of the total by 86400 truncated toward zero: 86400·d is the largest multiple not beyond the total on its side of zero |
| `Durations.TimeDiff.Hours` | datetime.cpp:48-50 | hours() lies in [−23, 23] and has the total's sign |
| `Durations.TimeDiff.TotalHours` | datetime.cpp:41-43 | total_hours() is days()·24 + hours() |
| `Durations.TimeDiff.Minutes` | datetime.cpp:51-53 | minutes() lies in [−59, 59] and has the total's sign |
| `Durations.TimeDiff.TotalMinutes` | datetime.cpp:38-40 | total_minutes() is total_hours()·60 + minutes() |
| `Durations.TimeDiff.Seconds` | datetime.cpp:54-56 | seconds() lies in [−59, 59], has the total's sign, and total_minutes()·60 + seconds() is the total |
| `Durations.TimeDiff.AddSeconds` | datetime.cpp:77-79 | adds n to the total, unchecked |
| `Durations.TimeDiff.Plus` | datetime.cpp:81-88 | a fresh duration whose total is the sum of the totals |
| `Durations.TimeDiff.Minus` | datetime.cpp:89-91 | a fresh duration whose total is the difference of the totals |
| `Durations.TotalDeterminesTimeDiff` | datetime.cpp:35-75 | two durations with equal totals agree on every accessor and every comparison |
| `Clock.TimeCheck` | datetime.cpp:94-102 | Time(h, m, s) passes iff h ∈ [0, 23] and m, s ∈ [0, 59]; a bad hour fails with [0, 23], else a bad minute with [0, 59], else a bad second with [0, 59] |
| `Clock.TimeCheckExamples` | datetime.cpp:99-101 | an hour of 24 and a minute of 60 are rejected, hour first |
| `Clock.TimeRoundTrip` | datetime.cpp:94-116 | a valid time is stored inside the day and hour(), minute(), second() give back h, m, s |
| `Clock.Time.constructor` | datetime.cpp:94-102 | stores (h·60 + m)·60 + s, inside [0, 86400), and reads back h, m, s |
| `Clock.Time.Copy` | datetime.h:38-66 | the implicit copy has the same seconds |
| `Clock.Time.Hour` | datetime.cpp:108-110 | hour() is the whole hours in the stored seconds, at most 23 inside the day |
| `Clock.Time.Minute` | datetime.cpp:111-113 | minute() lies in [0, 59] |
| `Clock.Time.Second` | datetime.cpp:114-116 | second() lies in [0, 59], and (hour()·60 + minute())·60 + second() is the stored seconds |
| `Clock.Clamped` | datetime.cpp:118-127 | the clamp lands in [0, 86399], is the identity inside the day, gives 0 below and 86399 above |
| `Clock.ClampExamples` | datetime.cpp:122-126 | 23:59:59 + 1000 s stays 23:59:59; 00:00:00 − 1000 s stays 00:00:00 |
| `Clock.Time.AddSeconds` | datetime.cpp:118-127 | the new seconds are the clamp of old + n |
| `Clock.Time.AddMinutes` | datetime.cpp:128-130 | the clamp of old + 60·n |
| `Clock.Time.AddHours` | datetime.cpp:131-133 | the clamp of old + 3600·n |
| `Clock.TimeDifferenceCheck` | datetime.cpp:153-158 | the TimeDiff built by `Time - Time` passes its checks iff the raw difference is within (−86400, 86400), and its components total the difference |
| `Clock.Time.Minus` | datetime.cpp:153-158 | a fresh duration whose total is the difference of the raw seconds |
| `Clock.TimeOrder` | datetime.cpp:135-152 | <=, >, >=, != are the order of the raw seconds |
| `Gregorian.IsLeapYear` | datetime.cpp:171-173 | a leap year is divisible by 4 |
| `Gregorian.LeapRuleAsWritten` | datetime.cpp:171-173 | the rule with C++'s truncating `%` decides every year, negative ones included, as the model's rule does |
| `Gregorian.LeapYearExamples` | datetime.cpp:171-173 | 2000, 2024 and 0 are leap years; 1900 and 2023 are not |
| `Gregorian.DaysInMonth` | datetime.cpp:179-186 | in [28, 31]; 29 exactly for February of a leap year; the table value for every other month; 28 for February of a common year |
| `Gregorian.MonthsBeforeTable` | datetime.cpp:169 | the running month sums are the common-year table, plus one from March on in a leap year |
| `Gregorian.MonthsFillYear` | datetime.cpp:169-194 | the twelve month lengths sum to the year's length: 366 in a leap year, 365 otherwise |
| `Gregorian.YearsLengthClosedForm` | datetime.cpp:258 | the constructor's closed form 365y + y/4 − y/100 + y/400 + (leap ? 0 : 1) is the sum of the lengths of years 0 … y − 1 |
| `Gregorian.DayCount` | datetime.cpp:258-262 | the constructor's count is the lengths of the years before y, plus the months before m, plus d − 1 |
| `Gregorian.DateCheck` | datetime.cpp:252-256 | Date(y, m, d) passes iff y ∈ [0, INT_MAX], m ∈ [1, 12] and d ∈ [1, days_in_month(y, m)]; a bad year fails with the year's bounds, else a bad month with [1, 12], else a bad day with [1, days_in_month(y, m)] |
| `Gregorian.DateCheckExamples` | datetime.cpp:254-256 | Date(2023,2,29) fails on the day with bounds [1, 28]; Date(2024,2,29) passes; a negative year and month 13 fail |
| `Gregorian.YearSplitFrom` | datetime.cpp:188-205 | the years peeled off from a start year: the remainder is below the found year's length, the split preserves the count for n ≥ 0, and a count already below the first year stops at once |
| `Gregorian.MonthSplitFrom` | datetime.cpp:214-233 | the months peeled off: the month stays in [1, 12], the remainder is below the found month's length, and the split preserves the count |
| `Gregorian.Decompose` | datetime.cpp:188-250 | year ≥ 0, month ∈ [1, 12], day ≤ the month's length (and ≥ 1 for n ≥ 0); a negative n gives (0, 1, n + 1); the years, months and day recompose to n |
| `Gregorian.DateRoundTrip` | datetime.cpp:252-263 | for every valid date, decomposing the constructor's count gives back (y, m, d) |
| `Gregorian.DecomposeInjective` | datetime.cpp:318-320 | two counts decompose to the same triple iff they are equal |
| `Gregorian.Y2KDecomposes` | datetime.cpp:252-263 | 2000-01-01 decomposes back to itself |
| `Gregorian.ZellerCongruence` | datetime.cpp:265-293 | Zeller's sum with floor division is congruent mod 7 to the day count, for every year ≥ 0, month and day |
| `Gregorian.WeekdayMatchesCount` | datetime.cpp:265-293 | corrected weekday: the weekday of count n is the residue mapping of n mod 7 (0 → SATURDAY), for every count, negative ones included |
| `Gregorian.WeekdayAdvances` | datetime.cpp:265-293 | the next day's weekday is the successor of this day's |
| `Gregorian.ZellerAsWrittenAgrees` | datetime.cpp:265-293 | as written, the sum is non-negative for year ≥ 0 and day ≥ 1, so `logic_error` is not reached; the result equals the corrected one except in January and February of year 0, where it is one day late |
| `Gregorian.FromResidue` | datetime.cpp:283-290 | the switch: residue 0 is SATURDAY, and residue r in [1, 6] is the enumerator r − 1 of `Weekday` in declaration order (SUNDAY … FRIDAY) |
| `Gregorian.ZellerAsWritten` | datetime.cpp:265-293 | `weekday()` as written, with truncating `%` and `/`; the only failure it raises is `logic_error` |
| `Gregorian.ZellerAsWrittenResidue` | datetime.cpp:276-291 | as written, `weekday()` throws exactly when the sum is negative and not a multiple of 7; otherwise it gives the weekday of the sum's Euclidean residue |
| `Gregorian.Y2KIsSaturday` | datetime.cpp:265-293 | 2000-01-01 is a whole number of weeks after 0000-01-01 and is a SATURDAY |
| `Gregorian.AsWrittenExamples` | datetime.cpp:265-293 | as written, 2000-01-01 is a SATURDAY, while 0000-02-29 and the next day, 0000-03-01, both come out WEDNESDAY |
| `Gregorian.YearZeroWeekdayShift` | datetime.cpp:272-284 | 0000-01-01 has count 0 and is a SATURDAY, but as written `weekday()` gives SUNDAY |
| `Gregorian.ZellerAsWrittenNegativeCount` | datetime.cpp:283-291 | the count −38 reads as day −37 of January, year 0, and as written reaches `logic_error` |
| `Gregorian.NegativeCountAsWritten` | datetime.cpp:265-291 | a negative count n reads as (0, 1, n + 1) with sum n + 36, and as written `weekday()` throws exactly when n ≤ −37 and n + 36 is not a multiple of 7 |
| `Dates.Date.constructor` | datetime.cpp:252-263 | the loop over the months before m yields the closed-form count, and that count decomposes back to (y, m, d) |
| `Dates.Date.Copy` | datetime.h:68-116 | the implicit copy has the same count |
| `Dates.Date.CalculateYear` | datetime.cpp:188-205 | the `while (true)` loop computes the recursive year split; year ≥ 0; the remainder left in the by-reference count is below that year's length; a negative count returns year 0 unchanged |
| `Dates.Date.CalculateMonth` | datetime.cpp:214-233 | the month loop yields Decompose's month, in [1, 12], and leaves day − 1, below that month's length for a non-negative count |
| `Dates.Date.Year` | datetime.cpp:207-212 | Decompose's year; the count lies within that year |
| `Dates.Date.Month` | datetime.cpp:236-241 | Decompose's month, in [1, 12] |
| `Dates.Date.Day` | datetime.cpp:243-250 | Decompose's day, within the month for a non-negative count; n + 1 for a negative count |
| `Dates.Date.Weekday` | datetime.cpp:265-293 | corrected weekday (see Findings): the residue mapping of the count mod 7 |
| `Dates.Date.IsLeapYear` | datetime.cpp:295-297 | holds iff February of year() has 29 days, iff year() has 366 days |
| `Dates.LeapQueryAgrees` | datetime.cpp:295-297 | the instance leap-year query equals the static rule on the constructed year |
| `Dates.Date.AddDays` | datetime.cpp:299-301 | shifts the count by n, unguarded |
| `Dates.Date.Next` | datetime.cpp:303-309 | a fresh copy one day later; the receiver is not modified |
| `Dates.Date.Prev` | datetime.cpp:310-316 | a fresh copy one day earlier; the receiver is not modified |
| `Dates.Date.PreIncrement` | datetime.cpp:340-343 | shifts by +1 and returns the receiver itself |
| `Dates.Date.PostIncrement` | datetime.cpp:344-348 | shifts by +1 and returns a fresh copy holding the old count |
| `Dates.Date.PreDecrement` | datetime.cpp:349-352 | shifts by −1 and returns the receiver itself |
| `Dates.Date.PostDecrement` | datetime.cpp:353-357 | shifts by −1 and returns a fresh copy holding the old count |
| `Dates.Date.Equals` | datetime.cpp:318-320 | comparing decomposed triples holds iff the raw counts are equal, negative counts included |
| `Dates.Date.LessEq` | datetime.cpp:327-329 | `< or ==` is the ≤ order of the raw counts |
| `Dates.DateOrder` | datetime.cpp:318-335 | ==, !=, >, >= agree with the order of the raw counts used by < |
| `Dates.Date.Minus` | datetime.cpp:337-339 | a fresh duration of Δdays·86400 seconds |
| `DateTimes.DateTimeCheck` | datetime.cpp:368-370 | DateTime(y,m,d,h,mi,s) passes iff both the date and the time checks pass; the date failure is the one reported |
| `DateTimes.DateTime.constructor` | datetime.cpp:368-370 | the date part is the constructor's count of (y, m, d) and decomposes back to it; the time part is (h·60 + mi)·60 + s, so 0 when the defaults are taken |
| `DateTimes.DateTime.FromParts` | datetime.cpp:371 | fresh copies of the given date and time |
| `DateTimes.Carry` | datetime.cpp:373-386 | the carry preserves the instant days·86400 + seconds; the time part ends in [0, 86400] and is 86400 iff the sum was a negative exact multiple of a day; a sum inside the day is unchanged |
| `DateTimes.CarryIsFloorSplit` | datetime.cpp:379-385 | against floor division: the carry equals the floor split of the instant except on a negative exact multiple, where it has one day fewer and 86400 seconds |
| `DateTimes.CarryExactDayBack` | datetime.cpp:382-385 | from midnight, −86400 s moves the date back two days with a time part of 86400 |
| `DateTimes.CarryBackOverLeapDay` | datetime.cpp:373-386 | one second before 1 March 00:00:00 of a leap year is 29 February 23:59:59 |
| `DateTimes.DateTime.AddSeconds` | datetime.cpp:373-386 | the (days, seconds) pair becomes the carry of the old pair plus n, so the instant grows by n |
| `DateTimes.DateTime.AddMinutes` | datetime.cpp:128-130 | reaches the override: the carry of old + 60·n, the instant grows by 60·n |
| `DateTimes.DateTime.AddHours` | datetime.cpp:131-133 | reaches the override: the carry of old + 3600·n, the instant grows by 3600·n |
| `DateTimes.DateTime.IsLeapYear` | datetime.cpp:387-389 | the override equals the date part's leap-year query |
| `DateTimes.DateTimeOrder` | datetime.cpp:391-408 | == is equality of both parts; < is lexicographic on (day count, seconds); <=, >, >=, != are its complements |
| `DateTimes.InstantOrder` | datetime.cpp:391-399 | while both time parts are below 86400, == and < are the equality and order of instants |
| `DateTimes.CarriedMidnightCompares` | datetime.cpp:391-399 | the same instant held as (d, 86400) and (d + 1, 0) compares unequal, the first one smaller |
| `DateTimes.DateTime.Minus` | datetime.cpp:409-419 | in both the borrow and the plain branch, a fresh duration whose total is the difference of the instants |
| `DateTimes.CarriedMidnightMinusFails` | datetime.cpp:153-158 | subtracting a time part of 0 from a time part of 86400 builds a TimeDiff with 24 hours, which throws |
| `DateTimes.BorrowExample` | datetime.cpp:409-419 | 1 March 00:00:00 minus 29 February 23:59:59 of a leap year (2024, for one) is one second, by the borrow branch |
| `DateTimes.CarryExample` | datetime.cpp:373-386 | 1 March 00:00:00 of a leap year with add_seconds(−1) reads 29 February 23:59:59 |
| `DateTimes.DateTime.Plus` | datetime.cpp:420-430 | a fresh value whose instant is shifted by the duration's total, with a time part ending inside the day |
| `DateTimes.DateTime.MinusDiff` | datetime.cpp:431-433 | a fresh value whose instant is shifted back by the duration's total, with a time part ending inside the day |

## Left out

- `to_str` on Time, Date and DateTime is left out. It is stream formatting with `setw`/`setfill`.
- The `Str` type (`str.h`) is not part of this model. Neither are the error-message strings the constructors build: a failure is a value naming the field and its bounds.
- 32-bit `int` overflow is not modelled. Integers are unbounded, for example in the TimeDiff total of a large `days` or the day count of a year near INT_MAX. INT_MAX appears only as the year check's upper bound.
- The C++ object model is not modelled: multiple inheritance, virtual destructors, `final`, and slicing a DateTime to a Date or a Time. DateTime is composition. The members it inherits from Date (`year()`, `weekday()`, `add_days`, `next`, `prev`, `++`, `--`) are reached through its `date` field and act on that part alone, as in the source, where `next()` on a DateTime returns a Date.
- The static `Date::is_leapyear(int)` and `DateTime::is_leapyear(int)` are one function, `Gregorian.IsLeapYear`. The second only forwards to the first.
- `Gregorian.DaysInMonth` requires a month in [1, 12]. `days_in_month` is public and indexes its table out of bounds (undefined behaviour) for any other month.
- `Clock.Time.Minus` requires the difference to be within a day, because otherwise its TimeDiff constructor throws. `DateTimes.DateTime.Minus` carries the same precondition on its time parts. `Clock.TimeDifferenceCheck` and `DateTimes.CarriedMidnightMinusFails` state when the throw happens.
- Throws are not values: each constructor requires its `...Check` function to pass. The `...Check` functions and their lemmas state exactly which inputs throw and which error is raised.
- `DateTimes.DateTime.constructor` does not restate `hour()`, `minute()` and `second()` of its time part. It states the seconds, from which `Clock.TimeRoundTrip` gives the three accessors.
- Concurrency: there is none in the library.

## Findings

| source | as written | input that shows it | evidently intended | confidence | as-written member | corrected member |
|---|---|---|---|---|---|---|
| datetime.cpp:272-281 | January and February of year 0 are treated as months 13 and 14 of year −1. The C++ `%` and `/` then truncate, giving a century year of −1 and a century of 0. | Date(0, 1, 1): the sum is 36, residue 1, SUNDAY. 0000-01-01 is 730485 = 7 · 104355 days before 2000-01-01, a SATURDAY, so it is itself a SATURDAY. | Floor division in Zeller's congruence, which makes the weekday the count mod 7 | high (proved; not executed) | `Gregorian.YearZeroWeekdayShift` | `Gregorian.WeekdayMatchesCount` |
| datetime.cpp:283-291 | The default branch throws `logic_error` for a residue outside [0, 6], treated as unreachable. But `add_days`, `prev` and `--` can drive the count below zero, where `day()` is n + 1 ≤ 0. | The count −38, which is Date(0,1,1) after add_days(−38), reads as day −37. The sum is −2, and the truncated residue is −2. | A weekday for every count, continuing the week backwards from 0000-01-01 | medium (proved; not executed) | `Gregorian.ZellerAsWrittenNegativeCount` | `Dates.Date.Weekday` |

Both corrections are the same definition. `Gregorian.WeekdayOfCount` applies Zeller's
congruence with floor division to the decomposed count, and `Dates.Date.Weekday`
returns it. The as-written function is `Gregorian.ZellerAsWritten`.
