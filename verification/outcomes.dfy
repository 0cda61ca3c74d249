/** Absent values and thrown errors, as the C++ code expresses them with null pointers and exceptions. */
module Outcomes {

  /** A pointer that may be null, or an optional argument. */
  datatype Option<+T> = None | Some(value: T)

  /**
   * Either the value an operation produced or the exception it threw.
   * The three members below let `:-` stop at the first thrown error,
   * the way an exception unwinds the C++ call stack.
   */
  datatype Result<+R, +E> = Success(value: R) | Failure(error: E) {

    predicate IsFailure() {
      Failure?
    }

    function PropagateFailure<U>(): Result<U, E>
      requires Failure?
    {
      Failure(error)
    }

    function Extract(): R
      requires Success?
    {
      value
    }
  }
}
