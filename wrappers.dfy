/** Option and Result values: Python's None and its raised exceptions. */
module Wrappers {

  /** A value or its absence (Python's None, pandas' NaN/NaT/NA). */
  datatype Option<+T> = None | Some(value: T) {

    /** The wrapped value, or `default` when there is none. */
    function GetOr(default: T): T {
      match this
      case Some(v) => v
      case None => default
    }
  }

  /** The outcome of an operation that may raise instead of returning. */
  datatype Result<+R, +E> = Success(value: R) | Failure(error: E)
}
