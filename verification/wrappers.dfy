/** Failure-compatible wrappers used throughout the model: `Option` for a value
    that may be absent and `Result` for the exceptions the plugin can raise. */
module Wrappers {

  /** A value that may be absent. */
  datatype Option<+T> = None | Some(value: T)

  /** Either a computed value or the error that stopped the computation. */
  datatype Result<+R, +E> = Success(value: R) | Failure(error: E) {

    /** True if this is a Failure */
    predicate IsFailure() {
      Failure?
    }

    /** Re-types a Failure so that `:-` can propagate it */
    function PropagateFailure<U>(): Result<U, E>
      requires Failure?
    {
      Failure(error)
    }

    /** The value carried by a Success */
    function Extract(): R
      requires Success?
    {
      value
    }
  }
}
