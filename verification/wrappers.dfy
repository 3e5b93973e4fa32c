/** Failure-compatible result types for the error paths of the mnemonic codec. */
module Wrappers {

  /** A value or the reason there is none; usable with `:-`. */
  datatype Result<+T, +E> = Success(value: T) | Failure(error: E) {
    predicate IsFailure() {
      Failure?
    }

    function PropagateFailure<U>(): Result<U, E>
      requires Failure?
    {
      Failure(error)
    }

    function Extract(): T
      requires Success?
    {
      value
    }
  }

  /** The outcome of a check that returns nothing on success (a `void` method that may throw). */
  datatype Outcome<+E> = Pass | Fail(error: E)
}
