/** Optional values and results with an error, as used throughout the model. */
module Wrappers {

  /** A value that may be missing: an absent HTML element, an absent JSON key,
      a catalog file that holds no table. */
  datatype Option<+T> = None | Some(value: T) {

    /** The value, or `default` when there is none (Python's `x if x else d`,
        `dict.get(k, d)`). */
    function GetOr(default: T): T
    {
      match this
      case Some(v) => v
      case None => default
    }
  }

  /** The outcome of an operation that can raise. */
  datatype Result<+T, +E> = Success(value: T) | Failure(error: E)
}
