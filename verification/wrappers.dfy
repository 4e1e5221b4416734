/** Failure-compatible wrappers used across the model: an optional value (a
    JavaScript `undefined`/`null` or a present value) and a result that is
    either a value or an error (a thrown exception or a rejected promise). */
module Wrappers {

  datatype Option<+T> = None | Some(value: T) {

    /** The value, or a default when absent (the `x ?? d` of the source). */
    function GetOr(default: T): T {
      match this
      case Some(v) => v
      case None => default
    }
  }

  datatype Result<+R, +E> = Success(value: R) | Failure(error: E) {

    predicate IsFailure() {
      Failure?
    }
  }
}
