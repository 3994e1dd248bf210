/** C++ integer division and remainder. Both truncate toward zero, while Dafny's
    own `/` and `%` are Euclidean; the two agree only on a non-negative dividend. */
module TruncDiv {

  /** `a / b` as C++ computes it, for a positive divisor. */
  function TDiv(a: int, b: int): (q: int)
    requires b > 0
    ensures 0 <= a ==> 0 <= q && b * q <= a < b * q + b
    ensures a < 0 ==> q <= 0 && b * q - b < a <= b * q
  {
    if a >= 0 then a / b else -((-a) / b)
  }

  /** `a % b` as C++ computes it: the remainder takes the sign of the dividend. */
  function TMod(a: int, b: int): (r: int)
    requires b > 0
    ensures a == b * TDiv(a, b) + r
    ensures 0 <= a ==> 0 <= r < b
    ensures a < 0 ==> -b < r <= 0
  {
    if a >= 0 then a % b else -((-a) % b)
  }

  /** Whole hours are whole minutes divided by 60, under truncation too. */
  lemma HoursFromMinutes(t: int)
    ensures TDiv(TDiv(t, 60), 60) == TDiv(t, 3600)
  {
  }

  /** Whole days are whole hours divided by 24, under truncation too. */
  lemma DaysFromHours(t: int)
    ensures TDiv(TDiv(t, 3600), 24) == TDiv(t, 86400)
  {
  }
}
