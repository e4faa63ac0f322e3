/** Optional values and outcomes that are either a value or an error. */
module Wrappers {

  /** A value that may be absent; Kotlin's nullable types. */
  datatype Option<+T> = None | Some(value: T) {

    /** The value, or `default` when absent; Kotlin's `?:`. */
    function GetOr(default: T): T {
      match this
      case Some(v) => v
      case None => default
    }
  }

  /** The outcome of an operation that either produces a value or fails with an error. */
  datatype Result<+T, +E> = Ok(value: T) | Err(error: E)
}
