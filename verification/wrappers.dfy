/**
 * The two shapes the partial steps of the conversion return: an optional
 * value (Python's `None`-or-value) and a success-or-fatal-error result
 * (Python's uncaught exceptions).
 */
module Wrappers {

  /** A value that may be absent, as `Union[str, None]` in the source. */
  datatype Option<+T> = None | Some(value: T) {

    /** The value, or `default` when absent. */
    function GetOr(default: T): T {
      match this
      case Some(v) => v
      case None => default
    }
  }

  /** A computed value, or the error that aborted the computation. */
  datatype Result<+T, +E> = Success(value: T) | Failure(error: E) {

    predicate IsFailure() {
      Failure?
    }

    function PropagateFailure<U>(): Result<U, E>
      requires Failure?
    {
      Failure(error)
    }

    function Extract(): T
      requires Success?
    {
      value
    }
  }
}
