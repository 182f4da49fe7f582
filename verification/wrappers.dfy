/** Option and Result, shared by the note stores and the controllers. */
module Wrappers {

  /** A value that may be absent: JavaScript's `undefined`/`null`, or a missing storage key. */
  datatype Option<+T> = None | Some(value: T) {

    /** The wrapped value, or `default` when absent (the `x || default` idiom). */
    function GetOr(default: T): T {
      match this
      case Some(v) => v
      case None => default
    }
  }

  /** The outcome of a handler that may throw before it has done anything. */
  datatype Result<+R, +E> = Success(value: R) | Failure(error: E)
}
