/** Failure-carrying values: the model's stand-in for Python's `None` and for
    exceptions raised by the calls the core makes. */
module Wrappers {

  datatype Option<+T> = None | Some(value: T) {
    function GetOr(default: T): T {
      match this
      case Some(v) => v
      case None => default
    }
  }

  /** What a call that either returns a value or raises comes back with. */
  datatype Result<+R, +E> = Success(value: R) | Failure(error: E)

  /** What a call that returns nothing of interest, or raises, comes back with. */
  datatype Outcome<+E> = Pass | Fail(error: E)
}
