/** Option and Result values used in place of SQL NULL and of raised errors. */
module Wrappers {

  datatype Option<T> = None | Some(value: T) {
    /** The value, or `default` for None (Python's `x or default` on a nullable column). */
    function GetOr(default: T): T {
      match this
      case Some(v) => v
      case None => default
    }
  }

  datatype Result<T, E> = Success(value: T) | Failure(error: E)
}
