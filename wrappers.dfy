/** Failure-compatible values used across the model: an optional value (a
    query that may find no row) and a result (an insert that may break a
    table constraint). */
module Wrappers {

  datatype Option<+T> = None | Some(value: T) {
    /** The value when present, otherwise the given default. */
    function GetOr(default: T): T {
      match this
      case Some(v) => v
      case None => default
    }
  }

  datatype Result<+R, +E> = Success(value: R) | Failure(error: E)
}
