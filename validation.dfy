/** The validation failures the value types raise. The C++ code throws
    `std::invalid_argument` with a message naming the field and its bounds; here the
    failure is a value naming the same things, and the message text is not modelled. */
module Validation {

  /** Largest value of a 32-bit C++ `int`; the year check uses it as its upper bound. */
  const IntMax: int := 0x7fff_ffff

  datatype Field = Year | Month | Day | Hour | Minute | Second

  datatype Error =
    | RangeError(field: Field, min: int, max: int)  // a field outside [min, max]
    | SignError                                      // TimeDiff components of opposite signs
    | LogicError                                     // weekday residue outside [0, 6]

  /** Outcome of a validation step: it passes or it throws. */
  datatype Outcome = Pass | Fail(error: Error)

  /** A computation that may throw. */
  datatype Result<T> = Ok(value: T) | Err(error: Error)

  /** check_integer_range: throws unless min <= value <= max. */
  function CheckRange(value: int, field: Field, min: int, max: int): (o: Outcome)
    ensures o.Pass? <==> min <= value <= max
    ensures o.Fail? ==> o.error == RangeError(field, min, max)
  {
    if value < min || value > max then Fail(RangeError(field, min, max)) else Pass
  }

  /** Run `first`, then `next`: the first failure is the one thrown. */
  function AndThen(first: Outcome, next: Outcome): Outcome
  {
    if first.Fail? then first else next
  }
}
