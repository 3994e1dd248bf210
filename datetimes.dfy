/** DateTime: a Date and a Time of day together. Its add_seconds overrides the clamping
    one of Time: whole days overflowing the time of day are carried into the date. The
    carry for a negative sum keeps a time of 86400 (not 0) when the sum is an exact
    multiple of a day, so the time part lies in [0, 86400], both ends included. */
module DateTimes {
  import opened TruncDiv
  import opened Validation
  import opened Durations
  import opened Clock
  import opened Gregorian
  import opened Dates

  /** What DateTime(year, month, day, hour, minute, second) throws: the Date part is
      built first, so its failure is the one raised. */
  function DateTimeCheck(year: int, month: int, day: int, hour: int, minute: int, second: int): (o: Outcome)
    ensures o.Pass? <==> DateCheck(year, month, day).Pass? && TimeCheck(hour, minute, second).Pass?
    ensures DateCheck(year, month, day).Fail? ==> o == DateCheck(year, month, day)
  {
    AndThen(DateCheck(year, month, day), TimeCheck(hour, minute, second))
  }

  /** The (days, seconds) pair add_seconds leaves, given the day count and the time part
      after `total_seconds_ += n`. */
  function Carry(days: int, secs: int): (r: (int, int))
    ensures r.0 * SecondsPerDay + r.1 == days * SecondsPerDay + secs
    ensures 0 <= r.1 <= SecondsPerDay
    ensures r.1 == SecondsPerDay <==> secs < 0 && secs % SecondsPerDay == 0
    ensures 0 <= secs < SecondsPerDay ==> r == (days, secs)
  {
    if secs >= SecondsPerDay then
      (days + TDiv(secs, SecondsPerDay), TMod(secs, SecondsPerDay))
    else if secs < 0 then
      (days + TDiv(secs, SecondsPerDay) - 1, SecondsPerDay + TMod(secs, SecondsPerDay))
    else
      (days, secs)
  }

  /** Against the floor split of the instant: the carry agrees with it except on a
      negative exact multiple of a day, where it keeps one day fewer and a full day of
      seconds. */
  lemma CarryIsFloorSplit(days: int, secs: int)
    ensures !(secs < 0 && secs % SecondsPerDay == 0) ==>
      Carry(days, secs) == (days + secs / SecondsPerDay, secs % SecondsPerDay)
    ensures secs < 0 && secs % SecondsPerDay == 0 ==>
      Carry(days, secs) == (days + secs / SecondsPerDay - 1, SecondsPerDay)
  {
  }

  /** One second before 1 March 00:00:00 of a leap year is 29 February 23:59:59
      (2024 is such a year). */
  lemma CarryBackOverLeapDay(year: int, n: int)
    requires 0 <= year <= IntMax && Gregorian.IsLeapYear(year)
    requires n == DayCount(year, 3, 1)
    ensures Carry(n, -1) == (n - 1, SecondsPerDay - 1)
    ensures n - 1 == DayCount(year, 2, 29) && Decompose(n - 1) == Civil(year, 2, 29)
  {
    assert MonthsBefore(year, 3) == MonthsBefore(year, 2) + 29;
    DateRoundTrip(year, 2, 29);
  }

  /** Going back exactly one day from midnight moves the date back two days and leaves
      a time part of 86400: the instant is right, but year(), month() and day() read the
      day before the intended one. */
  lemma CarryExactDayBack(days: int)
    ensures Carry(days, -SecondsPerDay) == (days - 2, SecondsPerDay)
  {
  }

  /** DateTime - DateTime subtracts the time parts with Time - Time, whose TimeDiff
      constructor throws when a time part of 86400 meets a time part of 0: the hours
      come to 24. */
  lemma CarriedMidnightMinusFails(a: DateTime, b: DateTime)
    requires a.time.totalSeconds == SecondsPerDay && b.time.totalSeconds == 0
    ensures var d := a.time.totalSeconds - b.time.totalSeconds;
      TimeDiffCheck(0, WholeHours(d), MinutesPart(d), SecondsPart(d)) == Fail(RangeError(Hour, -23, 23))
  {
  }

  class DateTime {
    const date: Date
    const time: Time

    /** The instant in seconds since 0000-01-01 00:00:00. */
    function Instant(): int
      reads this, date, time
    {
      date.totalDays * SecondsPerDay + time.totalSeconds
    }

    /** DateTime(year, month, day, hour = 0, minute = 0, second = 0). */
    constructor (year: int, month: int, day: int, hour: int := 0, minute: int := 0, second: int := 0)
      requires DateTimeCheck(year, month, day, hour, minute, second).Pass?
      ensures fresh(date) && fresh(time)
      ensures date.totalDays == DayCount(year, month, day)
      ensures Decompose(date.totalDays) == Civil(year, month, day)
      ensures time.totalSeconds == ClockSeconds(hour, minute, second)
      ensures 0 <= time.totalSeconds < SecondsPerDay
    {
      date := new Date(year, month, day);
      time := new Time(hour, minute, second);
    }

    /** DateTime(const Date&, const Time&): copies of both parts. */
    constructor FromParts(dt: Date, tm: Time)
      ensures fresh(date) && fresh(time)
      ensures date.totalDays == dt.totalDays && time.totalSeconds == tm.totalSeconds
    {
      date := new Date.Copy(dt);
      time := new Time.Copy(tm);
    }

    /** add_seconds (the override): adds to the time part, then carries whole days into
        the date. */
    method AddSeconds(n: int)
      modifies date, time
      ensures (date.totalDays, time.totalSeconds) == Carry(old(date.totalDays), old(time.totalSeconds) + n)
      ensures Instant() == old(Instant()) + n
    {
      time.totalSeconds := time.totalSeconds + n;
      if time.totalSeconds >= SecondsPerDay {
        date.AddDays(TDiv(time.totalSeconds, SecondsPerDay));
        time.totalSeconds := TMod(time.totalSeconds, SecondsPerDay);
      } else if time.totalSeconds < 0 {
        date.AddDays(TDiv(time.totalSeconds, SecondsPerDay) - 1);
        time.totalSeconds := SecondsPerDay + TMod(time.totalSeconds, SecondsPerDay);
      }
    }

    /** add_minutes, inherited from Time, reaches the override of add_seconds. */
    method AddMinutes(n: int)
      modifies date, time
      ensures (date.totalDays, time.totalSeconds) == Carry(old(date.totalDays), old(time.totalSeconds) + 60 * n)
      ensures Instant() == old(Instant()) + 60 * n
    {
      AddSeconds(n * 60);
    }

    /** add_hours, inherited from Time, reaches the override of add_seconds. */
    method AddHours(n: int)
      modifies date, time
      ensures (date.totalDays, time.totalSeconds) == Carry(old(date.totalDays), old(time.totalSeconds) + 3600 * n)
      ensures Instant() == old(Instant()) + 3600 * n
    {
      AddMinutes(n * 60);
    }

    /** is_leapyear() const (the override): the leap-year rule for year(). */
    predicate IsLeapYear()
      reads this, date
      ensures IsLeapYear() <==> date.IsLeapYear()
    {
      Gregorian.IsLeapYear(Decompose(date.totalDays).year)
    }

    /** operator==: Date == and Time ==. */
    predicate Eq(other: DateTime)
      reads this, date, time, other, other.date, other.time
    {
      date.Equals(other.date) && time.Eq(other.time)
    }

    predicate Ne(other: DateTime)
      reads this, date, time, other, other.date, other.time
    {
      !Eq(other)
    }

    /** operator<: the date first, then the time of day. */
    predicate Less(other: DateTime)
      reads this, date, time, other, other.date, other.time
    {
      date.Less(other.date) || (date.Equals(other.date) && time.Less(other.time))
    }

    predicate LessEq(other: DateTime)
      reads this, date, time, other, other.date, other.time
    {
      Less(other) || Eq(other)
    }

    predicate Greater(other: DateTime)
      reads this, date, time, other, other.date, other.time
    {
      !LessEq(other)
    }

    predicate GreaterEq(other: DateTime)
      reads this, date, time, other, other.date, other.time
    {
      !Less(other)
    }

    /** operator-(const DateTime&): whole days from Date -, seconds from Time -, and a day
        borrowed when the time part is behind. Time - throws unless the time parts are
        less than a day apart. */
    method Minus(other: DateTime) returns (r: TimeDiff)
      requires -SecondsPerDay < time.totalSeconds - other.time.totalSeconds < SecondsPerDay
      ensures fresh(r)
      ensures r.totalSeconds == Instant() - other.Instant()
    {
      var dateDiff := date.Minus(other.date);
      var timeDiff := time.Minus(other.time);
      if timeDiff.TotalSeconds() < 0 {
        var oneDay := new TimeDiff(1, 0, 0, 0);
        var borrowed := dateDiff.Minus(oneDay);
        var carried := timeDiff.Plus(oneDay);
        r := borrowed.Plus(carried);
      } else {
        r := dateDiff.Plus(timeDiff);
      }
    }

    /** operator+(const TimeDiff&): a copy shifted by days, hours, minutes, then seconds.
        The last step adds less than a minute, so the time part ends inside the day. */
    method Plus(d: TimeDiff) returns (r: DateTime)
      ensures fresh(r) && fresh(r.date) && fresh(r.time)
      ensures r.Instant() == Instant() + d.totalSeconds
      ensures 0 <= r.time.totalSeconds < SecondsPerDay
    {
      r := new DateTime.FromParts(date, time);
      r.date.AddDays(d.Days());
      r.AddHours(d.Hours());
      r.AddMinutes(d.Minutes());
      r.AddSeconds(d.Seconds());
      PartsRecompose(d.totalSeconds);
    }

    /** operator-(const TimeDiff&): adds the negated components, which always pass the
        TimeDiff constructor's checks. */
    method MinusDiff(d: TimeDiff) returns (r: DateTime)
      ensures fresh(r) && fresh(r.date) && fresh(r.time)
      ensures r.Instant() == Instant() - d.totalSeconds
      ensures 0 <= r.time.totalSeconds < SecondsPerDay
    {
      PartsPassCheck(d.totalSeconds);
      var negated := new TimeDiff(-d.Days(), -d.Hours(), -d.Minutes(), -d.Seconds());
      r := Plus(negated);
    }
  }

  /** The comparisons are the lexicographic order of (day count, time part), and the
      derived ones are its complements. */
  lemma DateTimeOrder(a: DateTime, b: DateTime)
    ensures a.Eq(b) <==> a.date.totalDays == b.date.totalDays && a.time.totalSeconds == b.time.totalSeconds
    ensures a.Less(b) <==> (a.date.totalDays < b.date.totalDays ||
      (a.date.totalDays == b.date.totalDays && a.time.totalSeconds < b.time.totalSeconds))
    ensures a.LessEq(b) <==> !b.Less(a)
    ensures a.Greater(b) <==> b.Less(a)
    ensures a.GreaterEq(b) <==> !a.Less(b)
    ensures a.Ne(b) <==> !a.Eq(b)
  {
  }

  /** While both time parts lie in [0, 86400) the comparisons are the order of instants. */
  lemma InstantOrder(a: DateTime, b: DateTime)
    requires 0 <= a.time.totalSeconds < SecondsPerDay && 0 <= b.time.totalSeconds < SecondsPerDay
    ensures a.Eq(b) <==> a.Instant() == b.Instant()
    ensures a.Less(b) <==> a.Instant() < b.Instant()
  {
    DateTimeOrder(a, b);
    if a.date.totalDays < b.date.totalDays {
      assert a.Instant() < b.Instant();
    } else if a.date.totalDays > b.date.totalDays {
      assert a.Instant() > b.Instant();
    }
  }

  /** A time part of 86400 breaks that agreement: the same instant written as (d, 86400)
      and (d + 1, 0) compares unequal, and the first is the smaller. */
  lemma CarriedMidnightCompares(a: DateTime, b: DateTime)
    requires a.date.totalDays + 1 == b.date.totalDays
    requires a.time.totalSeconds == SecondsPerDay && b.time.totalSeconds == 0
    ensures a.Instant() == b.Instant()
    ensures !a.Eq(b) && a.Less(b)
  {
    DateTimeOrder(a, b);
  }

  /** 2024-03-01 00:00:00 with add_seconds(-1) reads 2024-02-29 23:59:59; so does
      1 March of every other leap year. */
  method CarryExample(year: int) returns (dt: DateTime)
    requires 0 <= year <= IntMax && Gregorian.IsLeapYear(year)
    ensures Decompose(dt.date.totalDays) == Civil(year, 2, 29)
    ensures dt.time.Hour() == 23 && dt.time.Minute() == 59 && dt.time.Second() == 59
  {
    dt := new DateTime(year, 3, 1);
    CarryBackOverLeapDay(year, dt.date.totalDays);
    dt.AddSeconds(-1);
    TimeRoundTrip(23, 59, 59);
  }

  /** 2024-03-01 00:00:00 minus 2024-02-29 23:59:59 is one second, by the borrowing
      branch (the time parts differ by -86399); so in every other leap year. */
  method BorrowExample(year: int) returns (r: TimeDiff)
    requires 0 <= year <= IntMax && Gregorian.IsLeapYear(year)
    ensures r.totalSeconds == 1
  {
    var later := new DateTime(year, 3, 1);
    var earlier := new DateTime(year, 2, 29, 23, 59, 59);
    CarryBackOverLeapDay(year, later.date.totalDays);
    r := later.Minus(earlier);
  }
}
