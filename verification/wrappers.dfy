/** Failure-compatible wrappers used for the detector's error paths. */
module Wrappers {

  /** A value that may be missing (a dictionary lookup that finds nothing). */
  datatype Option<+T> = None | Some(value: T)

  /** Either a value or the error that ended the run. */
  datatype Result<+R, +E> = Success(value: R) | Failure(error: E) {

    predicate IsFailure() {
      Failure?
    }

    function PropagateFailure<U>(): Result<U, E>
      requires Failure?
    {
      Failure(error)
    }

    function Extract(): R
      requires Success?
    {
      value
    }
  }
}
