/** Date: a calendar day stored as a day count from 0000-01-01. year(), month() and
    day() recover the date by the loops of calculate_year and calculate_month; the
    count itself can be shifted anywhere, below zero included. */
module Dates {
  import opened Validation
  import opened Durations
  import opened Gregorian

  class Date {
    var totalDays: int

    /** Date(year, month, day): the closed-form prefix, then a loop adding the lengths
        of the months before `month`. The inputs must pass its checks. */
    constructor (year: int, month: int, day: int)
      requires DateCheck(year, month, day).Pass?
      ensures totalDays == DayCount(year, month, day)
      ensures Decompose(totalDays) == Civil(year, month, day)
    {
      var t := day - 1 + year * 365 + year / 4 - year / 100 + year / 400
        + (if Gregorian.IsLeapYear(year) then 0 else 1);
      ghost var prefix := t;
      var i := 0;
      while i < month - 1
        invariant 0 <= i <= month - 1
        invariant t == prefix + MonthsBefore(year, i + 1)
      {
        t := t + DaysInMonth(year, i + 1);
        i := i + 1;
      }
      totalDays := t;
      DateRoundTrip(year, month, day);
    }

    /** The implicit copy constructor. */
    constructor Copy(other: Date)
      ensures totalDays == other.totalDays
    {
      totalDays := other.totalDays;
    }

    function GetTotalDays(): int reads this { totalDays }

    /** calculate_year: peels whole years off the count, which it takes by reference;
        returns the year and the count left, which is below that year's length. */
    static method CalculateYear(days: int) returns (year: int, rest: int)
      ensures (year, rest) == YearSplitFrom(days, 0)
      ensures 0 <= year && rest < DaysInYear(year)
      ensures 0 <= days ==> 0 <= rest && YearsLength(year) + rest == days
      ensures days < 0 ==> year == 0 && rest == days
    {
      year, rest := 0, days;
      while true
        invariant 0 <= year
        invariant YearSplitFrom(rest, year) == YearSplitFrom(days, 0)
        decreases rest
      {
        var daysInYear := if Gregorian.IsLeapYear(year) then 366 else 365;
        if rest < daysInYear {
          break;
        }
        rest := rest - daysInYear;
        year := year + 1;
      }
    }

    /** calculate_month: calculate_year, then peels whole months off what is left;
        returns the month and the count left, which is below that month's length. */
    static method CalculateMonth(days: int) returns (month: int, rest: int)
      ensures month == Decompose(days).month && rest == Decompose(days).day - 1
      ensures 1 <= month <= 12
      ensures 0 <= days ==> 0 <= rest < DaysInMonth(Decompose(days).year, month)
    {
      var year;
      year, rest := CalculateYear(days);
      MonthsFillYear(year);
      ghost var yearRest := rest;
      month := 1;
      while true
        invariant 1 <= month <= 12
        invariant MonthsBefore(year, month) + rest < DaysInYear(year)
        invariant MonthSplitFrom(year, rest, month) == MonthSplitFrom(year, yearRest, 1)
        decreases 12 - month
      {
        var daysInMonth := if month == 2 && Gregorian.IsLeapYear(year) then 29 else MonthLengths[month - 1];
        assert daysInMonth == DaysInMonth(year, month);
        if rest < daysInMonth {
          break;
        }
        assert MonthsBefore(year, month + 1) == MonthsBefore(year, month) + daysInMonth;
        rest := rest - daysInMonth;
        month := month + 1;
      }
      assert (month, rest) == MonthSplitFrom(year, yearRest, 1);
      assert Decompose(days) == Civil(year, month, rest + 1);
    }

    /** year() */
    method Year() returns (year: int)
      ensures year == Decompose(totalDays).year
      ensures 0 <= totalDays ==> YearsLength(year) <= totalDays < YearsLength(year) + DaysInYear(year)
    {
      var rest;
      year, rest := CalculateYear(totalDays);
    }

    /** month() */
    method Month() returns (month: int)
      ensures month == Decompose(totalDays).month && 1 <= month <= 12
    {
      var rest;
      month, rest := CalculateMonth(totalDays);
    }

    /** day(): what calculate_month leaves, plus one. */
    method Day() returns (day: int)
      ensures day == Decompose(totalDays).day
      ensures 0 <= totalDays ==> 1 <= day <= DaysInMonth(Decompose(totalDays).year, Decompose(totalDays).month)
      ensures totalDays < 0 ==> day == totalDays + 1
    {
      var month, rest := CalculateMonth(totalDays);
      day := rest + 1;
    }

    /** weekday(), with the floor-division correction: the weekday fixed by the count
        modulo 7, counted from a SATURDAY on 0000-01-01. */
    function Weekday(): (w: Weekday)
      reads this
      ensures w == FromResidue(totalDays % 7)
    {
      WeekdayMatchesCount(totalDays);
      WeekdayOfCount(totalDays)
    }

    /** is_leapyear() const: the static rule applied to year(). */
    predicate IsLeapYear()
      reads this
      ensures IsLeapYear() <==> DaysInMonth(Decompose(totalDays).year, 2) == 29
      ensures IsLeapYear() <==> DaysInYear(Decompose(totalDays).year) == 366
    {
      Gregorian.IsLeapYear(Decompose(totalDays).year)
    }

    /** add_days: shifts the count with no bound. */
    method AddDays(n: int)
      modifies this
      ensures totalDays == old(totalDays) + n
    {
      totalDays := totalDays + n;
    }

    /** next(): a shifted copy; the receiver is const and keeps its count. */
    method Next() returns (r: Date)
      ensures fresh(r) && r.totalDays == totalDays + 1
    {
      r := new Date.Copy(this);
      r.AddDays(1);
    }

    /** prev(): a shifted copy; the receiver is const and keeps its count. */
    method Prev() returns (r: Date)
      ensures fresh(r) && r.totalDays == totalDays - 1
    {
      r := new Date.Copy(this);
      r.AddDays(-1);
    }

    /** Prefix ++: shifts in place and returns the receiver. */
    method PreIncrement() returns (r: Date)
      modifies this
      ensures r == this && totalDays == old(totalDays) + 1
    {
      AddDays(1);
      r := this;
    }

    /** Postfix ++: shifts in place and returns a copy of the old value. */
    method PostIncrement() returns (r: Date)
      modifies this
      ensures fresh(r) && r.totalDays == old(totalDays) && totalDays == old(totalDays) + 1
    {
      r := new Date.Copy(this);
      AddDays(1);
    }

    /** Prefix --: shifts in place and returns the receiver. */
    method PreDecrement() returns (r: Date)
      modifies this
      ensures r == this && totalDays == old(totalDays) - 1
    {
      AddDays(-1);
      r := this;
    }

    /** Postfix --: shifts in place and returns a copy of the old value. */
    method PostDecrement() returns (r: Date)
      modifies this
      ensures fresh(r) && r.totalDays == old(totalDays) && totalDays == old(totalDays) - 1
    {
      r := new Date.Copy(this);
      AddDays(-1);
    }

    /** operator==: compares the reconstructed (year, month, day) triples. */
    predicate Equals(other: Date)
      reads this, other
      ensures Equals(other) <==> totalDays == other.totalDays
    {
      var a, b := Decompose(totalDays), Decompose(other.totalDays);
      a.year == b.year && a.month == b.month && a.day == b.day
    }

    predicate NotEquals(other: Date) reads this, other { !Equals(other) }

    /** operator<: compares the raw counts. */
    predicate Less(other: Date) reads this, other { totalDays < other.totalDays }

    /** operator<=: `<` or `==`, which together are the order of the raw counts. */
    predicate LessEq(other: Date)
      reads this, other
      ensures LessEq(other) <==> totalDays <= other.totalDays
    {
      Less(other) || Equals(other)
    }

    predicate Greater(other: Date) reads this, other { !LessEq(other) }
    predicate GreaterEq(other: Date) reads this, other { !Less(other) }

    /** operator-: a duration of whole days, the difference of the counts. */
    method Minus(other: Date) returns (r: TimeDiff)
      ensures fresh(r) && r.totalSeconds == (totalDays - other.totalDays) * 86400
    {
      r := new TimeDiff(totalDays - other.totalDays, 0, 0, 0);
    }
  }

  /** The comparisons are one order, that of the raw counts: == agrees with < for every
      count, negative ones included. */
  lemma DateOrder(a: Date, b: Date)
    ensures a.Equals(b) <==> a.totalDays == b.totalDays
    ensures a.NotEquals(b) <==> a.totalDays != b.totalDays
    ensures a.Greater(b) <==> a.totalDays > b.totalDays
    ensures a.GreaterEq(b) <==> a.totalDays >= b.totalDays
    ensures a.LessEq(b) <==> a.Less(b) || a.Equals(b)
  {
  }

  /** The instance leap-year query is the static rule applied to year(). */
  lemma LeapQueryAgrees(d: Date, year: int, month: int, day: int)
    requires DateCheck(year, month, day).Pass? && d.totalDays == DayCount(year, month, day)
    ensures d.IsLeapYear() == Gregorian.IsLeapYear(year)
  {
    DateRoundTrip(year, month, day);
  }
}
