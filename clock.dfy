/** Time: a time of day stored as seconds since midnight. Its own add_seconds clamps
    into [0, 86399] instead of wrapping. */
module Clock {
  import opened TruncDiv
  import opened Validation
  import opened Durations

  const SecondsPerDay: int := 86400

  /** What Time(hour, minute, second) throws, in the order it checks. */
  function TimeCheck(hour: int, minute: int, second: int): (o: Outcome)
    ensures o.Pass? <==> 0 <= hour <= 23 && 0 <= minute <= 59 && 0 <= second <= 59
    ensures !(0 <= hour <= 23) ==> o == Fail(RangeError(Hour, 0, 23))
    ensures 0 <= hour <= 23 && !(0 <= minute <= 59) ==> o == Fail(RangeError(Minute, 0, 59))
    ensures 0 <= hour <= 23 && 0 <= minute <= 59 && !(0 <= second <= 59) ==>
      o == Fail(RangeError(Second, 0, 59))
  {
    AndThen(CheckRange(hour, Hour, 0, 23),
    AndThen(CheckRange(minute, Minute, 0, 59),
            CheckRange(second, Second, 0, 59)))
  }

  /** Seconds since midnight of hour:minute:second. */
  function ClockSeconds(hour: int, minute: int, second: int): int
  {
    (hour * 60 + minute) * 60 + second
  }

  /** A valid time of day is stored inside the day and read back unchanged by
      hour(), minute() and second(). */
  lemma TimeRoundTrip(hour: int, minute: int, second: int)
    requires TimeCheck(hour, minute, second).Pass?
    ensures var t := ClockSeconds(hour, minute, second);
      0 <= t < SecondsPerDay &&
      WholeHours(t) == hour && MinutesPart(t) == minute && SecondsPart(t) == second
  {
    PartsOfComponents(0, hour, minute, second);
  }

  /** Rejections: an hour of 24 and a minute of 60 are out of range. */
  lemma TimeCheckExamples()
    ensures TimeCheck(24, 0, 0) == Fail(RangeError(Hour, 0, 23))
    ensures TimeCheck(23, 60, 0) == Fail(RangeError(Minute, 0, 59))
    ensures TimeCheck(-1, 60, 0) == Fail(RangeError(Hour, 0, 23))
  {
  }

  /** The clamp Time::add_seconds applies after adding. */
  function Clamped(v: int): (r: int)
    ensures 0 <= r < SecondsPerDay
    ensures 0 <= v < SecondsPerDay ==> r == v
    ensures v < 0 ==> r == 0
    ensures SecondsPerDay <= v ==> r == SecondsPerDay - 1
  {
    if v < 0 then 0 else if v > SecondsPerDay - 1 then SecondsPerDay - 1 else v
  }

  /** 23:59:59 plus 1000 seconds stays 23:59:59; 00:00:00 minus 1000 stays 00:00:00. */
  lemma ClampExamples()
    ensures Clamped(ClockSeconds(23, 59, 59) + 1000) == ClockSeconds(23, 59, 59)
    ensures Clamped(ClockSeconds(0, 0, 0) - 1000) == ClockSeconds(0, 0, 0)
  {
  }

  /** Time - Time builds TimeDiff(0, d / 3600, d / 60 % 60, d % 60) from the difference d
      of the raw seconds. That constructor passes exactly when |d| < 86400: a larger
      difference gives an hour of 24 or more. */
  lemma TimeDifferenceCheck(d: int)
    ensures TimeDiffCheck(0, WholeHours(d), MinutesPart(d), SecondsPart(d)).Pass? <==>
      -SecondsPerDay < d < SecondsPerDay
    ensures ComponentsTotal(0, WholeHours(d), MinutesPart(d), SecondsPart(d)) == d
  {
    PartsRecompose(d);
  }

  class Time {
    var totalSeconds: int

    /** Time(hour, minute, second); the inputs must pass its checks. */
    constructor (hour: int, minute: int, second: int)
      requires TimeCheck(hour, minute, second).Pass?
      ensures totalSeconds == ClockSeconds(hour, minute, second)
      ensures 0 <= totalSeconds < SecondsPerDay
      ensures Hour() == hour && Minute() == minute && Second() == second
    {
      TimeRoundTrip(hour, minute, second);
      totalSeconds := ClockSeconds(hour, minute, second);
    }

    /** The implicit copy constructor. */
    constructor Copy(other: Time)
      ensures totalSeconds == other.totalSeconds
    {
      totalSeconds := other.totalSeconds;
    }

    function GetTotalSeconds(): int reads this { totalSeconds }

    /** hour(): whole hours since midnight. */
    function Hour(): (h: int)
      reads this
      ensures 0 <= totalSeconds ==> 0 <= 3600 * h <= totalSeconds < 3600 * h + 3600
      ensures 0 <= totalSeconds < SecondsPerDay ==> h <= 23
    {
      WholeHours(totalSeconds)
    }

    /** minute(): the minutes left after whole hours. */
    function Minute(): (m: int)
      reads this
      ensures 0 <= totalSeconds ==> 0 <= m <= 59
    {
      PartsRecompose(totalSeconds);
      MinutesPart(totalSeconds)
    }

    /** second(): the seconds left after whole minutes; hour(), minute() and second()
        recompose to the stored seconds. */
    function Second(): (s: int)
      reads this
      ensures 0 <= totalSeconds ==> 0 <= s <= 59
      ensures (Hour() * 60 + Minute()) * 60 + s == totalSeconds
    {
      PartsRecompose(totalSeconds);
      SecondsPart(totalSeconds)
    }

    /** add_seconds: adds, then clamps into [0, 86399]. */
    method AddSeconds(n: int)
      modifies this
      ensures totalSeconds == Clamped(old(totalSeconds) + n)
    {
      totalSeconds := totalSeconds + n;
      if totalSeconds < 0 {
        totalSeconds := 0;
      } else if totalSeconds > SecondsPerDay - 1 {
        totalSeconds := SecondsPerDay - 1;
      }
    }

    /** add_minutes: add_seconds of 60 times as many. */
    method AddMinutes(n: int)
      modifies this
      ensures totalSeconds == Clamped(old(totalSeconds) + 60 * n)
    {
      AddSeconds(n * 60);
    }

    /** add_hours: add_minutes of 60 times as many. */
    method AddHours(n: int)
      modifies this
      ensures totalSeconds == Clamped(old(totalSeconds) + 3600 * n)
    {
      AddMinutes(n * 60);
    }

    predicate Eq(other: Time) reads this, other { totalSeconds == other.totalSeconds }
    predicate Ne(other: Time) reads this, other { !Eq(other) }
    predicate Less(other: Time) reads this, other { totalSeconds < other.totalSeconds }
    predicate LessEq(other: Time) reads this, other { Less(other) || Eq(other) }
    predicate Greater(other: Time) reads this, other { !LessEq(other) }
    predicate GreaterEq(other: Time) reads this, other { !Less(other) }

    /** operator-: a duration of the difference of the raw seconds. Its TimeDiff
        constructor throws unless that difference is under a day either way. */
    method Minus(other: Time) returns (r: TimeDiff)
      requires -SecondsPerDay < totalSeconds - other.totalSeconds < SecondsPerDay
      ensures fresh(r)
      ensures r.totalSeconds == totalSeconds - other.totalSeconds
    {
      var d := totalSeconds - other.totalSeconds;
      TimeDifferenceCheck(d);
      r := new TimeDiff(0, WholeHours(d), MinutesPart(d), SecondsPart(d));
    }
  }

  /** The derived comparisons (<=, >, >=, !=) are the order of the raw seconds. */
  lemma TimeOrder(a: Time, b: Time)
    ensures a.LessEq(b) <==> a.totalSeconds <= b.totalSeconds
    ensures a.Greater(b) <==> a.totalSeconds > b.totalSeconds
    ensures a.GreaterEq(b) <==> a.totalSeconds >= b.totalSeconds
    ensures a.Ne(b) <==> a.totalSeconds != b.totalSeconds
  {
  }
}
