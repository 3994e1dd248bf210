/** TimeDiff: a signed duration whose only state is a total number of seconds.
    Components are read back from the total by truncating division, so a negative
    duration decomposes into non-positive components. */
module Durations {
  import opened TruncDiv
  import opened Validation

  /** The total the constructor stores for (days, hours, minutes, seconds). */
  function ComponentsTotal(days: int, hours: int, minutes: int, seconds: int): int
  {
    ((days * 24 + hours) * 60 + minutes) * 60 + seconds
  }

  /** The constructor's sign test. Only `days` is compared with the other three, so
      hours, minutes and seconds may disagree among themselves when days == 0. */
  predicate MixedSigns(days: int, hours: int, minutes: int, seconds: int)
  {
    (days < 0 && (hours > 0 || minutes > 0 || seconds > 0)) ||
    (days > 0 && (hours < 0 || minutes < 0 || seconds < 0))
  }

  /** What TimeDiff(days, hours, minutes, seconds) throws, in the order it checks. */
  function TimeDiffCheck(days: int, hours: int, minutes: int, seconds: int): (o: Outcome)
    ensures o.Pass? <==>
      -23 <= hours <= 23 && -59 <= minutes <= 59 && -59 <= seconds <= 59 &&
      !MixedSigns(days, hours, minutes, seconds)
    ensures o.Fail? && !(-23 <= hours <= 23) ==> o.error == RangeError(Hour, -23, 23)
    ensures o == Fail(SignError) ==>
      -23 <= hours <= 23 && -59 <= minutes <= 59 && -59 <= seconds <= 59
  {
    AndThen(CheckRange(hours, Hour, -23, 23),
    AndThen(CheckRange(minutes, Minute, -59, 59),
    AndThen(CheckRange(seconds, Second, -59, 59),
            if MixedSigns(days, hours, minutes, seconds) then Fail(SignError) else Pass)))
  }

  /** The sign test compares days only: TimeDiff(0,1,-1,0) is accepted, TimeDiff(1,-1,0,0)
      is not, and an hour of 24 is out of range. */
  lemma TimeDiffCheckExamples()
    ensures TimeDiffCheck(0, 1, -1, 0) == Pass && ComponentsTotal(0, 1, -1, 0) == 3540
    ensures TimeDiffCheck(1, -1, 0, 0) == Fail(SignError)
    ensures TimeDiffCheck(0, 24, 0, 0) == Fail(RangeError(Hour, -23, 23))
    ensures TimeDiffCheck(-1, 0, 0, 60) == Fail(RangeError(Second, -59, 59))
  {
  }

  // Decomposition of a total by truncating division (days(), hours(), ... in the source).

  function WholeDays(t: int): int { TDiv(t, 86400) }
  function WholeHours(t: int): int { TDiv(t, 3600) }
  function WholeMinutes(t: int): int { TDiv(t, 60) }
  function HoursPart(t: int): int { TMod(WholeHours(t), 24) }
  function MinutesPart(t: int): int { TMod(WholeMinutes(t), 60) }
  function SecondsPart(t: int): int { TMod(t, 60) }

  /** Whole minutes are whole hours and the minutes part. */
  lemma MinuteStep(t: int)
    ensures WholeMinutes(t) == WholeHours(t) * 60 + MinutesPart(t)
  {
    HoursFromMinutes(t);
    var m := WholeMinutes(t);
    assert m == 60 * TDiv(m, 60) + TMod(m, 60);
  }

  /** Whole hours are whole days and the hours part. */
  lemma HourStep(t: int)
    ensures WholeHours(t) == WholeDays(t) * 24 + HoursPart(t)
  {
    DaysFromHours(t);
    var h := WholeHours(t);
    assert h == 24 * TDiv(h, 24) + TMod(h, 24);
  }

  /** The components of any total recompose to it, lie in the constructor's ranges and
      share the total's sign; total_hours and total_minutes are the matching prefixes. */
  lemma PartsRecompose(t: int)
    ensures ComponentsTotal(WholeDays(t), HoursPart(t), MinutesPart(t), SecondsPart(t)) == t
    ensures WholeHours(t) == WholeDays(t) * 24 + HoursPart(t)
    ensures WholeMinutes(t) == WholeHours(t) * 60 + MinutesPart(t)
    ensures -23 <= HoursPart(t) <= 23 && -59 <= MinutesPart(t) <= 59 && -59 <= SecondsPart(t) <= 59
    ensures 0 <= t ==> 0 <= WholeDays(t) && 0 <= HoursPart(t) && 0 <= MinutesPart(t) && 0 <= SecondsPart(t)
    ensures t <= 0 ==> WholeDays(t) <= 0 && HoursPart(t) <= 0 && MinutesPart(t) <= 0 && SecondsPart(t) <= 0
  {
    MinuteStep(t);
    HourStep(t);
    var d, h, m, s := WholeDays(t), HoursPart(t), MinutesPart(t), SecondsPart(t);
    assert t == 60 * WholeMinutes(t) + s;
    assert (d * 24 + h) * 60 + m == WholeMinutes(t);
  }

  /** The components of any total, and their negations, pass the constructor's checks:
      this is why `TimeDiff - TimeDiff` and `DateTime - TimeDiff` never throw. */
  lemma PartsPassCheck(t: int)
    ensures TimeDiffCheck(WholeDays(t), HoursPart(t), MinutesPart(t), SecondsPart(t)) == Pass
    ensures TimeDiffCheck(-WholeDays(t), -HoursPart(t), -MinutesPart(t), -SecondsPart(t)) == Pass
    ensures ComponentsTotal(-WholeDays(t), -HoursPart(t), -MinutesPart(t), -SecondsPart(t)) == -t
  {
    PartsRecompose(t);
  }

  /** Components that are in range and share one sign come back unchanged. */
  lemma PartsOfComponents(days: int, hours: int, minutes: int, seconds: int)
    requires -23 <= hours <= 23 && -59 <= minutes <= 59 && -59 <= seconds <= 59
    requires (0 <= days && 0 <= hours && 0 <= minutes && 0 <= seconds) ||
             (days <= 0 && hours <= 0 && minutes <= 0 && seconds <= 0)
    ensures var t := ComponentsTotal(days, hours, minutes, seconds);
      WholeDays(t) == days && HoursPart(t) == hours && MinutesPart(t) == minutes && SecondsPart(t) == seconds
  {
    var t := ComponentsTotal(days, hours, minutes, seconds);
    PartsRecompose(t);
    assert WholeMinutes(t) == (days * 24 + hours) * 60 + minutes;
    assert WholeHours(t) == days * 24 + hours;
  }

  /** Truncation decomposes a negative total symmetrically: -3661 is -(1h 1m 1s). */
  lemma NegativeTotalExample()
    ensures WholeDays(-3661) == 0 && HoursPart(-3661) == -1
    ensures MinutesPart(-3661) == -1 && SecondsPart(-3661) == -1
  {
  }

  class TimeDiff {
    var totalSeconds: int

    /** TimeDiff(days, hours, minutes, seconds); the inputs must pass its checks. */
    constructor (days: int, hours: int, minutes: int, seconds: int)
      requires TimeDiffCheck(days, hours, minutes, seconds).Pass?
      ensures totalSeconds == ComponentsTotal(days, hours, minutes, seconds)
    {
      totalSeconds := ComponentsTotal(days, hours, minutes, seconds);
    }

    function TotalSeconds(): int reads this { totalSeconds }

    /** days(): whole days, truncated toward zero. */
    function Days(): (d: int)
      reads this
      ensures 0 <= totalSeconds ==> 0 <= 86400 * d <= totalSeconds < 86400 * d + 86400
      ensures totalSeconds < 0 ==> 86400 * d - 86400 < totalSeconds <= 86400 * d <= 0
    {
      WholeDays(totalSeconds)
    }

    /** hours(): the hours left after whole days, with the total's sign. */
    function Hours(): (h: int)
      reads this
      ensures -23 <= h <= 23
      ensures (0 <= totalSeconds ==> 0 <= h) && (totalSeconds <= 0 ==> h <= 0)
    {
      PartsRecompose(totalSeconds);
      HoursPart(totalSeconds)
    }

    /** total_hours(): whole days and the hours part together. */
    function TotalHours(): (h: int)
      reads this
      ensures h == Days() * 24 + Hours()
    {
      PartsRecompose(totalSeconds);
      WholeHours(totalSeconds)
    }

    /** minutes(): the minutes left after whole hours, with the total's sign. */
    function Minutes(): (m: int)
      reads this
      ensures -59 <= m <= 59
      ensures (0 <= totalSeconds ==> 0 <= m) && (totalSeconds <= 0 ==> m <= 0)
    {
      PartsRecompose(totalSeconds);
      MinutesPart(totalSeconds)
    }

    /** total_minutes(): whole hours and the minutes part together. */
    function TotalMinutes(): (m: int)
      reads this
      ensures m == TotalHours() * 60 + Minutes()
    {
      PartsRecompose(totalSeconds);
      WholeMinutes(totalSeconds)
    }

    /** seconds(): what whole minutes leave of the total, with its sign. */
    function Seconds(): (s: int)
      reads this
      ensures TotalMinutes() * 60 + s == totalSeconds
      ensures -59 <= s <= 59
      ensures (0 <= totalSeconds ==> 0 <= s) && (totalSeconds <= 0 ==> s <= 0)
    {
      PartsRecompose(totalSeconds);
      SecondsPart(totalSeconds)
    }

    /** add_seconds: shifts the total in place, with no validation. */
    method AddSeconds(n: int)
      modifies this
      ensures totalSeconds == old(totalSeconds) + n
    {
      totalSeconds := totalSeconds + n;
    }

    predicate Eq(other: TimeDiff) reads this, other { totalSeconds == other.totalSeconds }
    predicate Ne(other: TimeDiff) reads this, other { !Eq(other) }
    predicate Less(other: TimeDiff) reads this, other { totalSeconds < other.totalSeconds }
    predicate LessEq(other: TimeDiff) reads this, other { totalSeconds <= other.totalSeconds }
    predicate Greater(other: TimeDiff) reads this, other { totalSeconds > other.totalSeconds }
    predicate GreaterEq(other: TimeDiff) reads this, other { totalSeconds >= other.totalSeconds }

    /** operator+: a fresh zero duration shifted by the sum of the totals. The sign
        test is not re-run, so the result may have mixed-sign components. */
    method Plus(other: TimeDiff) returns (r: TimeDiff)
      ensures fresh(r)
      ensures r.totalSeconds == totalSeconds + other.totalSeconds
    {
      r := new TimeDiff(0, 0, 0, 0);
      r.AddSeconds(totalSeconds + other.totalSeconds);
    }

    /** operator-: adds TimeDiff(-days, -hours, -minutes, -seconds) of `other`; that
        constructor call always passes its checks. */
    method Minus(other: TimeDiff) returns (r: TimeDiff)
      ensures fresh(r)
      ensures r.totalSeconds == totalSeconds - other.totalSeconds
    {
      PartsPassCheck(other.totalSeconds);
      var negated := new TimeDiff(-other.Days(), -other.Hours(), -other.Minutes(), -other.Seconds());
      r := Plus(negated);
    }
  }

  /** A TimeDiff is its total: equal totals agree on every accessor and comparison. */
  lemma TotalDeterminesTimeDiff(a: TimeDiff, b: TimeDiff, c: TimeDiff)
    requires a.totalSeconds == b.totalSeconds
    ensures a.Days() == b.Days() && a.Hours() == b.Hours()
    ensures a.Minutes() == b.Minutes() && a.Seconds() == b.Seconds()
    ensures a.TotalHours() == b.TotalHours() && a.TotalMinutes() == b.TotalMinutes()
    ensures a.Eq(c) == b.Eq(c) && a.Less(c) == b.Less(c) && a.LessEq(c) == b.LessEq(c)
    ensures a.Greater(c) == b.Greater(c) && a.GreaterEq(c) == b.GreaterEq(c) && a.Ne(c) == b.Ne(c)
  {
  }
}
