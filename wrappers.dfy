/** Option and Result, used for the backend calls that may fail and for the
    tuple unpacking that may raise. */
module Wrappers {

  /** A backend answer: `None` stands for a git invocation that exited with a
      non-zero status (the `CalledProcessError` branch). */
  datatype Option<+T> = None | Some(value: T) {
    /** The answer, or `default` when the call failed. */
    function GetOr(default: T): (r: T)
      ensures Some? ==> r == value
      ensures None? ==> r == default
    {
      match this
      case Some(v) => v
      case None => default
    }
  }

  datatype Result<+R, +E> = Success(value: R) | Failure(error: E)
}
