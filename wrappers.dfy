/** Failure-carrying values: the model's stand-in for JavaScript's `null`/`undefined`
    and for the exceptions the server actions throw. */
module Wrappers {

  datatype Option<+T> = None | Some(value: T) {
    /** The value, or `default` when absent (a destructuring default such as `page = 1`). */
    function GetOr(default: T): T {
      match this
      case Some(v) => v
      case None => default
    }
  }

  /** Result of an action that either returns a value or throws. */
  datatype Result<+T, +E> = Ok(value: T) | Err(error: E)

  /** Result of an action that returns nothing or throws. */
  datatype Outcome<+E> = Pass | Fail(error: E)
}
