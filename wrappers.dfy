/** Failure-compatible wrappers: a value that may be absent, and the outcome of
    an operation that can raise (a JavaScript TypeError, a Python IndexError,
    KeyError or ValueError). */
module Wrappers {

  datatype Option<+T> = None | Some(value: T) {
    function GetOr(default: T): T {
      match this
      case Some(v) => v
      case None => default
    }
  }

  /** `error` names the exception the source would raise. */
  datatype Result<+R> = Success(value: R) | Failure(error: string)
}
