/** What every module shares: an option type and the clock. */
module Prelude {

  datatype Option<+T> = None | Some(value: T)

  /** A run: steps in the order in which they happened, the latest outermost. */
  datatype Trace<S> = Start | Then(before: Trace<S>, last: S)

  /** How often a step occurs in a run. */
  function Times<S(==)>(steps: Trace<S>, x: S): nat {
    match steps
    case Start => 0
    case Then(before, last) => Times(before, x) + if last == x then 1 else 0
  }

  /** The one run is the beginning of the other. */
  ghost predicate Extends<S>(longer: Trace<S>, steps: Trace<S>) {
    longer == steps || (longer.Then? && Extends(longer.before, steps))
  }

  /** Seconds on the one clock that the application and the database share. */
  type Time = real

  const MINUTE: Time := 60.0
  const HOUR: Time := 3600.0
  const DAY: Time := 86400.0
}
