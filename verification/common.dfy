/** Values shared by every part of the lobby model: nil-able values, Go's
    `error`, and the clock. */
module Common {

  /** A Go reference, slice or `error` that may be nil. */
  datatype Option<+T> = None | Some(value: T)

  /** A Go `error`, reduced to its message. Go compares `errors.New` values
      by identity; the model only ever passes an error along, so it keeps
      the message and compares by value. */
  datatype Err = Err(msg: string)

  /** An instant, in nanoseconds since Go's zero `time.Time`; the zero value
      of a `time.Time` field is therefore 0. */
  type Time = int

  /** A `time.Duration`, in nanoseconds. */
  type Duration = int

  /** `DefaultTimeout`: one minute. */
  const DefaultTimeout: Duration := 60_000_000_000

  /** `since.Add(window).After(now)`: `now` lies strictly before the end of
      the window that opened at `since`. */
  predicate Within(since: Time, window: Duration, now: Time)
  {
    since + window > now
  }
}
