/** Failure-carrying results used where the Python code returns None or raises. */
module Wrappers {

  /** `Optional[T]`: a value or Python's `None`. */
  datatype Option<+T> = None | Some(value: T) {
    function GetOr(default: T): T {
      match this
      case Some(v) => v
      case None => default
    }
  }

  /** The outcome of a check that either passes or raises an error. */
  datatype Outcome<+E> = Pass | Fail(error: E)
}
