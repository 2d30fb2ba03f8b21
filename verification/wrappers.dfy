/** Failure-compatible carriers for the two ways an operation of the model can end:
    with a value, or with the exception the program would raise. */
module Wrappers {

  /** A value that may be absent; Python's `None` in the program. */
  datatype Option<+T> = None | Some(value: T)

  /** Either a value or the error that aborts the computation. */
  datatype Result<+R, +E> = Success(value: R) | Failure(error: E) {

    predicate IsFailure() {
      Failure?
    }

    function PropagateFailure<U>(): Result<U, E>
      requires Failure?
    {
      Failure(error)
    }

    function Extract(): R
      requires Success?
    {
      value
    }
  }

  /** The exceptions the model raises; the imaging library's own rejection of an empty
      resize target is not modelled. */
  datatype Error =
    | DivisionByZero   // `ZeroDivisionError` from the width ratio of a zero-width image
    | NegativeSize     // `ValueError` from creating an image with a negative side
}
