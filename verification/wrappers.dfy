/** Failure-compatible Option and Result datatypes used throughout the model. */
module Wrappers {

  datatype Option<+T> = None | Some(value: T)

  /** `Success` carries a value; `Failure` stands for an exception raised by the code. */
  datatype Result<+R, +E> = Success(value: R) | Failure(error: E) {

    predicate IsFailure() {
      Failure?
    }

    function PropagateFailure<U>(): Result<U, E>
      requires Failure?
    {
      Failure(error)
    }

    function Extract(): R
      requires Success?
    {
      value
    }
  }
}
