/** Option and Result: the optional JSON fields, `null` values and thrown errors of the application. */
module Wrappers {

  /** A value that may be absent: a missing JSON field, `undefined` or `null`. */
  datatype Option<+T> = None | Some(value: T) {

    /** The value, or `default` when there is none (JavaScript's default-parameter and `??` reading). */
    function GetOr(default: T): T {
      match this
      case Some(v) => v
      case None => default
    }
  }

  /** The outcome of an operation that either yields a value or throws an error. */
  datatype Result<+R, +E> = Success(value: R) | Failure(error: E)
}
