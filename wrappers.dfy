/** Optional values: a missing attribute, a missing element, an exception. */
module Wrappers {

  datatype Option<+T> = None | Some(value: T) {

    /** The value, or `default` when there is none. */
    function GetOr(default: T): T {
      match this
      case Some(v) => v
      case None => default
    }
  }

  /** A value, or the exception that was raised instead. */
  datatype Result<+T, +E> = Success(value: T) | Failure(error: E)
}
