/** The wrappers used by the report engine: an optional value (a cell that
    may be missing) and a result that is either a value or an error. */
module Wrappers {

  /** A possibly-missing value; `None` plays the role of a missing cell (NaN). */
  datatype Option<+T> = None | Some(value: T) {

    /** The wrapped value, or `default` when it is missing. */
    function GetOr(default: T): T {
      match this
      case Some(v) => v
      case None => default
    }
  }

  /** Either a computed value or the error the computation raised. */
  datatype Result<+R, +E> = Success(value: R) | Failure(error: E)
}
