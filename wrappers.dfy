/** Option and Result, the shapes used for JavaScript's `undefined` and for error exits. */
module Wrappers {

  /** A value that may be absent (`undefined` / `None` in the source). */
  datatype Option<+T> = None | Some(value: T) {

    /** The carried value, or `default` when absent (JavaScript's `x ?? default`). */
    function GetOr(default: T): T {
      match this
      case Some(v) => v
      case None => default
    }
  }

  /** The outcome of an operation that can stop with an error message. */
  datatype Result<+R, +E> = Success(value: R) | Failure(error: E)
}
