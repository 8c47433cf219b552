/** Option and Result types used for the nullable references and the
    exceptions of the modelled code. */
module Wrappers {

  datatype Option<+T> = None | Some(value: T)

  datatype Result<+R, +E> = Success(value: R) | Failure(error: E) {
    predicate IsFailure() {
      Failure?
    }

    function PropagateFailure<U>(): Result<U, E>
      requires Failure?
    {
      Failure(error)
    }

    function Extract(): R
      requires Success?
    {
      value
    }
  }

  /** An operation that either completes or throws. */
  datatype Outcome<+E> = Pass | Fail(error: E)

  /** The .NET exceptions the modelled operations can raise. */
  datatype Exception =
    | ArgumentNull        // a null argument was passed where a reference is required
    | InvalidOperation    // `First()` on an empty sequence
    | ArgumentOutOfRange  // `Substring` past the end of the string
}
