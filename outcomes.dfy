/** Optional values and the outcome of a browser call that may raise. */
module Outcomes {

  /** A value that may be absent: an attribute that is not set, a node a query did not find. */
  datatype Option<+T> = None | Some(value: T)

  /** The outcome of a call into the browser: it returned a value, or it raised an exception. */
  datatype Fallible<+T> = Ok(value: T) | Raised

  /** What a loop that logs and skips a raising step appends for one step's outcome. */
  function Emitted<T>(outcome: Fallible<T>): seq<T> {
    if outcome.Ok? then [outcome.value] else []
  }
}
