/** Failure-carrying results for the bot's callback-style error paths. */
module Wrappers {

  datatype Option<+T> = None | Some(value: T)

  /** A callback's `(err, value)` pair: either a value or the error the callee reported. */
  datatype Result<+R, +E> = Success(value: R) | Failure(error: E) {
    predicate IsFailure() {
      Failure?
    }

    function PropagateFailure<U>(): Result<U, E>
      requires Failure?
    {
      Failure(error)
    }

    function Extract(): R
      requires Success?
    {
      value
    }
  }
}
