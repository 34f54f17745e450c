/** Shared vocabulary of the library services: optional values, the result
    envelope every service returns, the status literals and the clock. */
module Common {

  datatype Option<+T> = None | Some(value: T)

  /** The ServiceResult<T> envelope: a value on success, a short English
      message on a business-rule failure. */
  datatype ServiceResult<+T> = Success(data: T) | Failure(message: string)

  /** The Status enum. Entities persist it as the literal name, and the
      services also accept and store arbitrary strings in those columns. */
  datatype Status = Active | InActive | Banned | Borrowed | Returned
  {
    function Name(): string
    {
      match this
      case Active => "Active"
      case InActive => "InActive"
      case Banned => "Banned"
      case Borrowed => "Borrowed"
      case Returned => "Returned"
    }
  }

  /** Some element of a non-empty set: the next row a foreach loop visits. */
  method Pick<T>(s: set<T>) returns (x: T)
    requires s != {}
    ensures x in s
  {
    x :| x in s;
  }

  /** A point in time (DateTime), in whole seconds on a fixed time line. */
  type Instant = int

  const SecondsPerDay: int := 86400

  /** DateTime.AddDays with a whole number of days. */
  function AddDays(t: Instant, days: int): Instant
  {
    t + days * SecondsPerDay
  }

  /** TimeSpan.Days: the whole days in a span, truncated toward zero. */
  function WholeDays(span: int): (d: int)
    ensures 0 <= span ==> 0 <= d && d * SecondsPerDay <= span < (d + 1) * SecondsPerDay
    ensures span < 0 ==> d <= 0 && -d * SecondsPerDay <= -span < (-d + 1) * SecondsPerDay
  {
    if span >= 0 then span / SecondsPerDay else -((-span) / SecondsPerDay)
  }

  /** A span of k whole days plus less than one further day counts as k days,
      whatever the sign of the span. */
  lemma WholeDaysOfDaysPlusRemainder(k: int, rest: int)
    requires 0 <= rest < SecondsPerDay
    ensures WholeDays(k * SecondsPerDay + rest) == (if k >= 0 || rest == 0 then k else k + 1)
  {
  }
}
