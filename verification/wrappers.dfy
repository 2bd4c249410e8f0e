/** Failure-compatible wrapper shared by every module of the model. */
module Wrappers {

  /** A Python value that may be `None` (or a pandas NaN, or a missing key). */
  datatype Option<+T> = None | Some(value: T) {

    /** The wrapped value, or `default` when there is none (Python's `x or default` for strings). */
    function GetOr(default: T): T {
      match this
      case Some(v) => v
      case None => default
    }
  }
}
