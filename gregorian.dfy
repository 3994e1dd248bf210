/** The calendar arithmetic behind Date: the proleptic Gregorian leap rule, month
    lengths, the closed-form day count from year 0, its inverse by peeling whole years
    and months, and the weekday by Zeller's congruence. */
module Gregorian {
  import opened TruncDiv
  import opened Validation

  /** is_leapyear. For a negative year C++'s truncating `%` and Dafny's Euclidean `%`
      agree on whether the remainder is zero, so the test reads the same. */
  predicate IsLeapYear(year: int)
    ensures IsLeapYear(year) ==> year % 4 == 0
  {
    (year % 4 == 0 && year % 100 != 0) || year % 400 == 0
  }

  /** The rule with C++'s truncating `%`, as the source writes it, decides every year,
      negative ones included, the same way. */
  lemma LeapRuleAsWritten(year: int)
    ensures IsLeapYear(year) <==>
      (TMod(year, 4) == 0 && TMod(year, 100) != 0) || TMod(year, 400) == 0
  {
  }

  lemma LeapYearExamples()
    ensures IsLeapYear(2000) && IsLeapYear(2024) && IsLeapYear(0)
    ensures !IsLeapYear(1900) && !IsLeapYear(2023)
  {
  }

  /** Date::days_in_months. */
  const MonthLengths: seq<int> := [31, 28, 31, 30, 31, 30, 31, 31, 30, 31, 30, 31]

  /** days_in_month: 29 for February of a leap year, the table value otherwise. */
  function DaysInMonth(year: int, month: int): (r: int)
    requires 1 <= month <= 12
    ensures 28 <= r <= 31
    ensures r == 29 <==> month == 2 && IsLeapYear(year)
    ensures month != 2 ==> r == MonthLengths[month - 1]
    ensures month == 2 && !IsLeapYear(year) ==> r == 28
  {
    if month == 2 && IsLeapYear(year) then 29 else MonthLengths[month - 1]
  }

  function DaysInYear(year: int): int
  {
    if IsLeapYear(year) then 366 else 365
  }

  /** Days in the months before `month` of `year`. */
  function MonthsBefore(year: int, month: int): nat
    requires 1 <= month <= 13
  {
    if month == 1 then 0 else MonthsBefore(year, month - 1) + DaysInMonth(year, month - 1)
  }

  /** Days before the first of `month` in a common year. */
  function CommonMonthsBefore(month: int): int
    requires 1 <= month <= 13
  {
    [0, 31, 59, 90, 120, 151, 181, 212, 243, 273, 304, 334, 365][month - 1]
  }

  /** The running month sums: the common-year table, plus one from March on in a leap year. */
  lemma {:induction false} MonthsBeforeTable(year: int, month: int)
    requires 1 <= month <= 13
    ensures MonthsBefore(year, month) ==
      CommonMonthsBefore(month) + (if 3 <= month && IsLeapYear(year) then 1 else 0)
  {
    if month > 1 {
      MonthsBeforeTable(year, month - 1);
    }
  }

  /** The twelve month lengths add up to the year's length, 366 or 365. */
  lemma MonthsFillYear(year: int)
    ensures MonthsBefore(year, 13) == DaysInYear(year)
    ensures IsLeapYear(year) ==> MonthsBefore(year, 13) == 366
    ensures !IsLeapYear(year) ==> MonthsBefore(year, 13) == 365
  {
    MonthsBeforeTable(year, 13);
  }

  /** Days in the years 0 .. year - 1. */
  function YearsLength(year: nat): nat
  {
    if year == 0 then 0 else YearsLength(year - 1) + DaysInYear(year - 1)
  }

  /** year/4 - year/100 + year/400, the leap-day terms of the closed form. */
  function LeapTerms(year: int): int
  {
    year / 4 - year / 100 + year / 400
  }

  /** The leap-day terms grow by one exactly at a leap year. */
  lemma LeapStep(year: int)
    ensures LeapTerms(year) - LeapTerms(year - 1) == (if IsLeapYear(year) then 1 else 0)
  {
    assert year / 4 - (year - 1) / 4 == if year % 4 == 0 then 1 else 0;
    assert year / 100 - (year - 1) / 100 == if year % 100 == 0 then 1 else 0;
    assert year / 400 - (year - 1) / 400 == if year % 400 == 0 then 1 else 0;
    assert year % 400 == 0 ==> year % 100 == 0 && year % 4 == 0;
    assert year % 100 == 0 ==> year % 4 == 0;
  }

  /** The lengths of years 0 .. year - 1 in closed form, as the Date constructor writes it. */
  lemma {:induction false} YearsLengthClosedForm(year: nat)
    ensures YearsLength(year) == 365 * year + LeapTerms(year) + (if IsLeapYear(year) then 0 else 1)
  {
    if year > 0 {
      YearsLengthClosedForm(year - 1);
      LeapStep(year);
    }
  }

  /** The day count the Date constructor computes: the closed-form prefix, then the
      month lengths before `month`. Divisions are on a non-negative year, where C++ and
      Dafny agree. The count is the days of the years before, the months before and the
      days before in the month. */
  function DayCount(year: nat, month: int, day: int): (n: int)
    requires 1 <= month <= 12
    ensures n == YearsLength(year) + MonthsBefore(year, month) + day - 1
  {
    YearsLengthClosedForm(year);
    day - 1 + year * 365 + year / 4 - year / 100 + year / 400 + (if IsLeapYear(year) then 0 else 1)
      + MonthsBefore(year, month)
  }

  /** What Date(year, month, day) throws, in the order it checks. */
  function DateCheck(year: int, month: int, day: int): (o: Outcome)
    ensures o.Pass? <==>
      0 <= year <= IntMax && 1 <= month <= 12 && 1 <= day <= DaysInMonth(year, month)
    ensures !(0 <= year <= IntMax) ==> o == Fail(RangeError(Year, 0, IntMax))
    ensures 0 <= year <= IntMax && !(1 <= month <= 12) ==> o == Fail(RangeError(Month, 1, 12))
    ensures 0 <= year <= IntMax && 1 <= month <= 12 && !(1 <= day <= DaysInMonth(year, month)) ==>
      o == Fail(RangeError(Day, 1, DaysInMonth(year, month)))
  {
    var yearCheck := CheckRange(year, Year, 0, IntMax);
    var monthCheck := CheckRange(month, Month, 1, 12);
    if yearCheck.Fail? then yearCheck
    else if monthCheck.Fail? then monthCheck
    else CheckRange(day, Day, 1, DaysInMonth(year, month))
  }

  lemma DateCheckExamples()
    ensures DateCheck(2023, 2, 29) == Fail(RangeError(Day, 1, 28))
    ensures DateCheck(2024, 2, 29) == Pass
    ensures DateCheck(-1, 1, 1) == Fail(RangeError(Year, 0, IntMax))
    ensures DateCheck(2024, 13, 1) == Fail(RangeError(Month, 1, 12))
  {
  }

  // Decomposition: the loops of calculate_year and calculate_month as recursion.

  /** calculate_year from trial year `year`: peel whole years off `n` while they fit.
      A negative `n` fits no year and comes back untouched. */
  function YearSplitFrom(n: int, year: nat): (r: (nat, int))
    ensures year <= r.0 && r.1 < DaysInYear(r.0)
    ensures n < DaysInYear(year) ==> r == (year, n)
    ensures 0 <= n ==> 0 <= r.1 && YearsLength(r.0) + r.1 == YearsLength(year) + n
    decreases n
  {
    if n < DaysInYear(year) then (year, n) else YearSplitFrom(n - DaysInYear(year), year + 1)
  }

  /** calculate_month's loop from trial month `month`: peel whole months off `rest`
      while they fit. Started inside the year, it stops by December. */
  function MonthSplitFrom(year: int, rest: int, month: int): (r: (int, int))
    requires 1 <= month <= 12
    requires MonthsBefore(year, month) + rest < DaysInYear(year)
    ensures month <= r.0 <= 12 && r.1 < DaysInMonth(year, r.0)
    ensures rest < DaysInMonth(year, month) ==> r == (month, rest)
    ensures 0 <= rest ==> 0 <= r.1 && MonthsBefore(year, r.0) + r.1 == MonthsBefore(year, month) + rest
    decreases 12 - month
  {
    if rest < DaysInMonth(year, month) then (month, rest)
    else
      MonthsFillYear(year);
      MonthSplitFrom(year, rest - DaysInMonth(year, month), month + 1)
  }

  /** A date as year(), month() and day() report it. */
  datatype Civil = Civil(year: int, month: int, day: int)

  /** year(), month() and day() of a day count. Every count decomposes; a negative one
      gives year 0, month 1 and a day of n + 1 <= 0. */
  function Decompose(n: int): (c: Civil)
    ensures 0 <= c.year && 1 <= c.month <= 12 && c.day <= DaysInMonth(c.year, c.month)
    ensures 0 <= n ==> 1 <= c.day
    ensures n < 0 ==> c == Civil(0, 1, n + 1)
    ensures YearsLength(c.year) + MonthsBefore(c.year, c.month) + c.day - 1 == n
  {
    var (year, rest) := YearSplitFrom(n, 0);
    MonthsFillYear(year);
    var (month, dayRest) := MonthSplitFrom(year, rest, 1);
    Civil(year, month, dayRest + 1)
  }

  /** Later years start later: the year lengths are positive. */
  lemma {:induction false} YearsLengthMonotone(a: nat, b: nat)
    requires a <= b
    ensures YearsLength(a) <= YearsLength(b)
    ensures a < b ==> YearsLength(a) + DaysInYear(a) <= YearsLength(b)
    decreases b - a
  {
    if a < b {
      YearsLengthMonotone(a + 1, b);
    }
  }

  /** Later months start later in the year. */
  lemma {:induction false} MonthsBeforeMonotone(year: int, a: int, b: int)
    requires 1 <= a <= b <= 13
    ensures MonthsBefore(year, a) <= MonthsBefore(year, b)
    ensures a < b ==> MonthsBefore(year, a) + DaysInMonth(year, a) <= MonthsBefore(year, b)
    decreases b - a
  {
    if a < b {
      MonthsBeforeMonotone(year, a + 1, b);
    }
  }

  /** A day offset inside a year names that year only. */
  lemma YearUnique(y1: nat, r1: int, y2: nat, r2: int)
    requires 0 <= r1 < DaysInYear(y1) && 0 <= r2 < DaysInYear(y2)
    requires YearsLength(y1) + r1 == YearsLength(y2) + r2
    ensures y1 == y2 && r1 == r2
  {
    if y1 < y2 {
      YearsLengthMonotone(y1, y2);
    } else if y2 < y1 {
      YearsLengthMonotone(y2, y1);
    }
  }

  /** A day offset inside a month names that month only. */
  lemma MonthUnique(year: int, m1: int, r1: int, m2: int, r2: int)
    requires 1 <= m1 <= 12 && 1 <= m2 <= 12
    requires 0 <= r1 < DaysInMonth(year, m1) && 0 <= r2 < DaysInMonth(year, m2)
    requires MonthsBefore(year, m1) + r1 == MonthsBefore(year, m2) + r2
    ensures m1 == m2 && r1 == r2
  {
    if m1 < m2 {
      MonthsBeforeMonotone(year, m1, m2);
    } else if m2 < m1 {
      MonthsBeforeMonotone(year, m2, m1);
    }
  }

  /** A day of a month is a day of its year. */
  lemma DayOfYearBound(year: int, month: int, day: int)
    requires 1 <= month <= 12 && 1 <= day <= DaysInMonth(year, month)
    ensures 0 <= MonthsBefore(year, month) + day - 1 < DaysInYear(year)
  {
    MonthsBeforeMonotone(year, month, 13);
    MonthsFillYear(year);
  }

  /** Round trip: a date the constructor accepts decomposes back into itself. */
  lemma DateRoundTrip(year: int, month: int, day: int)
    requires DateCheck(year, month, day).Pass?
    ensures Decompose(DayCount(year, month, day)) == Civil(year, month, day)
  {
    var n := DayCount(year, month, day);
    var c := Decompose(n);
    var r1 := MonthsBefore(c.year, c.month) + c.day - 1;
    var r2 := MonthsBefore(year, month) + day - 1;
    DayOfYearBound(c.year, c.month, c.day);
    DayOfYearBound(year, month, day);
    YearUnique(c.year, r1, year, r2);
    MonthUnique(year, c.month, c.day - 1, month, day - 1);
  }

  /** Decomposition is injective on every count, negative ones included. */
  lemma DecomposeInjective(a: int, b: int)
    ensures Decompose(a) == Decompose(b) <==> a == b
  {
  }

  // Weekday.

  /** The enumerators of `Weekday`, in declaration order. */
  datatype Weekday = Sunday | Monday | Tuesday | Wednesday | Thursday | Friday | Saturday

  /** The switch of weekday(): residue 0 is SATURDAY, by name rather than by ordinal. */
  function FromResidue(r: int): (w: Weekday)
    requires 0 <= r <= 6
    ensures w == Saturday <==> r == 0
    ensures r != 0 ==> w == [Sunday, Monday, Tuesday, Wednesday, Thursday, Friday][r - 1]
  {
    match r
    case 0 => Saturday
    case 1 => Sunday
    case 2 => Monday
    case 3 => Tuesday
    case 4 => Wednesday
    case 5 => Thursday
    case _ => Friday
  }

  function NextWeekday(w: Weekday): Weekday
  {
    match w
    case Sunday => Monday
    case Monday => Tuesday
    case Tuesday => Wednesday
    case Wednesday => Thursday
    case Thursday => Friday
    case Friday => Saturday
    case Saturday => Sunday
  }

  /** January and February count as months 13 and 14 of the year before. */
  function ShiftedYear(year: int, month: int): int { if month < 3 then year - 1 else year }
  function ShiftedMonth(month: int): int { if month < 3 then month + 12 else month }

  /** Zeller's sum exactly as weekday() computes it, with C++'s truncating `%` and `/`. */
  function ZellerSumAsWritten(year: int, month: int, day: int): int
  {
    var y, m := ShiftedYear(year, month), ShiftedMonth(month);
    var centuryYear, century := TMod(y, 100), TDiv(y, 100);
    day + 13 * (m + 1) / 5 + centuryYear + TDiv(centuryYear, 4) + TDiv(century, 4) + 5 * century
  }

  /** weekday() as written: the residue of the sum under truncating `%`; a residue
      outside [0, 6] reaches the logic_error branch. */
  function ZellerAsWritten(year: int, month: int, day: int): (r: Result<Weekday>)
    ensures r.Err? ==> r.error == LogicError
  {
    var residue := TMod(ZellerSumAsWritten(year, month, day), 7);
    if 0 <= residue <= 6 then Ok(FromResidue(residue)) else Err(LogicError)
  }

  /** As written, weekday() throws exactly when the sum is negative and not a multiple
      of 7; otherwise it gives the weekday of the sum's Euclidean residue. */
  lemma ZellerAsWrittenResidue(year: int, month: int, day: int)
    ensures var sum := ZellerSumAsWritten(year, month, day);
      ZellerAsWritten(year, month, day).Err? <==> sum < 0 && sum % 7 != 0
    ensures var sum := ZellerSumAsWritten(year, month, day);
      ZellerAsWritten(year, month, day).Ok? ==> ZellerAsWritten(year, month, day).value == FromResidue(sum % 7)
  {
  }

  /** Zeller's sum with floor division, which its derivation assumes. */
  function ZellerSum(year: int, month: int, day: int): int
  {
    var y, m := ShiftedYear(year, month), ShiftedMonth(month);
    var centuryYear, century := y % 100, y / 100;
    day + 13 * (m + 1) / 5 + centuryYear + centuryYear / 4 + century / 4 + 5 * century
  }

  /** weekday() with floor division: the residue always lies in [0, 6]. */
  function Zeller(year: int, month: int, day: int): Weekday
  {
    FromResidue(ZellerSum(year, month, day) % 7)
  }

  /** The weekday of a day count. */
  function WeekdayOfCount(n: int): Weekday
  {
    var c := Decompose(n);
    Zeller(c.year, c.month, c.day)
  }

  /** Splitting a year into century and year of century leaves the leap-day terms
      unchanged modulo 7 (124 centuries of 100 years contribute 119 weeks' worth). */
  lemma CenturySplit(y: int)
    ensures var cy, c := y % 100, y / 100;
      cy + cy / 4 + c / 4 + 5 * c == y + LeapTerms(y) - 119 * c
  {
    var cy, c := y % 100, y / 100;
    assert y == 100 * c + cy;
    assert y / 4 == 25 * c + cy / 4;
    assert y / 400 == c / 4;
  }

  /** The month term 13 * (m + 1) / 5 against the days before the month, modulo 7. */
  lemma MonthTerm(month: int)
    requires 1 <= month <= 12
    ensures var m := ShiftedMonth(month);
      (CommonMonthsBefore(month) + (if month < 3 then 1 else 0) - 13 * (m + 1) / 5) % 7 == 0
  {
    match month
    case 1 => case 2 => case 3 => case 4 => case 5 => case 6 =>
    case 7 => case 8 => case 9 => case 10 => case 11 => case 12 =>
  }

  /** Numbers whose difference is a multiple of 7 leave the same residue. */
  lemma SameResidue(a: int, b: int, q: int)
    requires a - b == 7 * q
    ensures a % 7 == b % 7
  {
  }

  /** Zeller's sum with floor division is congruent modulo 7 to the day count, for
      every year >= 0 and month, and every day of the month or before it. */
  lemma ZellerCongruence(year: nat, month: int, day: int)
    requires 1 <= month <= 12
    ensures ZellerSum(year, month, day) % 7
         == (YearsLength(year) + MonthsBefore(year, month) + day - 1) % 7
  {
    var y := ShiftedYear(year, month);
    var c := y / 100;
    var t := 13 * (ShiftedMonth(month) + 1) / 5;
    var k := CommonMonthsBefore(month) + (if month < 3 then 1 else 0) - t;
    var n := YearsLength(year) + MonthsBefore(year, month) + day - 1;
    var w := ZellerSum(year, month, day);
    CenturySplit(y);
    assert w == day + t + y + LeapTerms(y) - 119 * c;
    YearsLengthClosedForm(year);
    MonthsBeforeTable(year, month);
    LeapStep(year);
    assert n == 365 * year + LeapTerms(y) + CommonMonthsBefore(month) + day;
    MonthTerm(month);
    assert n - w == 7 * (52 * year + 17 * c + k / 7);
    SameResidue(n, w, 52 * year + 17 * c + k / 7);
  }

  /** Corrected weekday: the weekday of count n is fixed by n modulo 7, with day 0
      (0000-01-01) a SATURDAY; this holds for every count, negative ones included. */
  lemma WeekdayMatchesCount(n: int)
    ensures WeekdayOfCount(n) == FromResidue(n % 7)
  {
    var c := Decompose(n);
    ZellerCongruence(c.year, c.month, c.day);
  }

  /** Hence each day's weekday is the successor of the previous day's. */
  lemma WeekdayAdvances(n: int)
    ensures WeekdayOfCount(n + 1) == NextWeekday(WeekdayOfCount(n))
  {
    WeekdayMatchesCount(n);
    WeekdayMatchesCount(n + 1);
    ResidueAdvances(n);
  }

  /** The residue mapping steps through the week as the count steps through the days. */
  lemma ResidueAdvances(n: int)
    ensures FromResidue((n + 1) % 7) == NextWeekday(FromResidue(n % 7))
  {
    var r := n % 7;
    assert (n + 1) % 7 == if r == 6 then 0 else r + 1;
  }

  /** As written, the sum is non-negative for every year >= 0 and day >= 1, including
      year -1 for January and February of year 0; so the residue lies in [0, 6], the
      logic_error branch is not reached, and the result differs from the corrected
      one only in January and February of year 0, where it is one day late. */
  lemma ZellerAsWrittenAgrees(year: nat, month: int, day: int)
    requires 1 <= month <= 12 && 1 <= day
    ensures ZellerSumAsWritten(year, month, day) >= 0
    ensures ZellerAsWritten(year, month, day) ==
      Ok(if year == 0 && month < 3 then NextWeekday(Zeller(year, month, day)) else Zeller(year, month, day))
  {
    var w := ZellerSumAsWritten(year, month, day);
    if year == 0 && month < 3 {
      assert w == ZellerSum(year, month, day) - 118;
      assert w % 7 == (ZellerSum(year, month, day) + 1) % 7;
    } else {
      assert w == ZellerSum(year, month, day);
    }
  }

  /** 2000-01-01 decomposes back into itself. */
  lemma Y2KDecomposes(n: int)
    requires n == DayCount(2000, 1, 1)
    ensures Decompose(n) == Civil(2000, 1, 1)
  {
    var year := 2000;
    DateRoundTrip(year, 1, 1);
  }

  /** 2000-01-01 lies a whole number of weeks after 0000-01-01, and is a SATURDAY. */
  lemma Y2KIsSaturday(n: int)
    requires n == DayCount(2000, 1, 1)
    ensures n % 7 == 0 && WeekdayOfCount(n) == Saturday
  {
    assert n % 7 == 0;
    WeekdayMatchesCount(n);
  }

  /** The counterexample: 0000-01-01 has count 0, whose weekday is SATURDAY, but as
      written it comes out SUNDAY. */
  lemma YearZeroWeekdayShift()
    ensures DayCount(0, 1, 1) == 0 && Decompose(0) == Civil(0, 1, 1)
    ensures WeekdayOfCount(0) == Saturday
    ensures ZellerAsWritten(0, 1, 1) == Ok(Sunday)
  {
    WeekdayMatchesCount(0);
  }

  /** As written, 2000-01-01 is a SATURDAY, while 0000-02-29 and the day after it,
      0000-03-01, share a weekday. */
  lemma AsWrittenExamples()
    ensures ZellerAsWritten(2000, 1, 1) == Ok(Saturday)
    ensures DayCount(0, 3, 1) == DayCount(0, 2, 29) + 1
    ensures ZellerAsWritten(0, 2, 29) == ZellerAsWritten(0, 3, 1) == Ok(Wednesday)
  {
  }

  /** Driven 38 days below the epoch, a date reaches the logic_error branch as written. */
  lemma ZellerAsWrittenNegativeCount()
    ensures Decompose(-38) == Civil(0, 1, -37)
    ensures ZellerAsWritten(0, 1, -37) == Err(LogicError)
  {
  }

  /** Every negative count n reads as day n + 1 of January, year 0, whose truncating
      sum is n + 36: as written, weekday() throws exactly when that sum is negative and
      not a multiple of 7. */
  lemma NegativeCountAsWritten(n: int)
    requires n < 0
    ensures Decompose(n) == Civil(0, 1, n + 1)
    ensures ZellerSumAsWritten(0, 1, n + 1) == n + 36
    ensures ZellerAsWritten(0, 1, n + 1).Err? <==> n < -36 && (n + 36) % 7 != 0
  {
  }
}
