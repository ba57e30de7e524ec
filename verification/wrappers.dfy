/** Optional values, standing in for JavaScript's `null` / `undefined`, and results that may be an error. */
module Wrappers {

  datatype Option<+T> = None | Some(value: T) {

    /** The wrapped value, or `default` when absent (JavaScript's `??`). */
    function GetOr(default: T): T {
      match this
      case Some(v) => v
      case None => default
    }
  }

  /** A value, or the message of the `Error` thrown instead. */
  datatype Result<+T> = Success(value: T) | Failure(error: string)
}
