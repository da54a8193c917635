/** Failure-compatible wrappers used across the model: an optional value for
    JavaScript's `null`/`undefined`, and a result for operations that reject. */
module Wrappers {

  datatype Option<T> = None | Some(value: T) {
    function GetOr(default: T): T {
      match this
      case Some(v) => v
      case None => default
    }
  }

  datatype Result<T, E> = Success(value: T) | Failure(error: E)
}
