/** Failure-compatible wrappers used for the C++ exceptions of the modelled code:
    a call that throws returns `Failure(e)`, one that returns normally `Success(v)`. */
module Wrappers {

  datatype Option<+T> = None | Some(value: T)

  datatype Result<+R, +E> = Success(value: R) | Failure(error: E) {
    predicate IsFailure() {
      Failure?
    }

    function PropagateFailure<U>(): Result<U, E>
      requires Failure?
    {
      Failure(this.error)
    }

    function Extract(): R
      requires Success?
    {
      value
    }
  }

  /** The C++ `void`: a successful call that returns nothing. */
  datatype Unit = Unit
}
