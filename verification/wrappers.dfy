/** Failure-compatible result types shared by the modules of this project. */
module Wrappers {

  /** A value that may be absent; used for nullable pointers. */
  datatype Option<+T> = None | Some(value: T)

  /** Either a value or the reason a fatal assertion would have fired. */
  datatype Result<+T, +E> = Success(value: T) | Failure(error: E) {

    predicate IsFailure() {
      Failure?
    }

    function PropagateFailure<U>(): Result<U, E>
      requires Failure?
    {
      Failure(error)
    }

    function Extract(): T
      requires Success?
    {
      value
    }
  }
}
