/** Optional values and results with an error, the two shapes the Python code
    expresses with `dict.get(key, default)` and with raised exceptions. */
module Wrappers {

  /** A value that may be absent, as a missing dictionary key or file. */
  datatype Option<+T> = None | Some(value: T) {

    /** The value, or `default` when absent (`dict.get(key, default)`). */
    function GetOr(default: T): T {
      match this
      case Some(v) => v
      case None => default
    }
  }

  /** The outcome of a computation that may raise. */
  datatype Result<+T, +E> = Success(value: T) | Failure(error: E)
}
