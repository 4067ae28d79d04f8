/** Failure-compatible result types used throughout the model. */
module Wrappers {

  datatype Option<+T> = None | Some(value: T) {
    predicate IsFailure() {
      None?
    }

    function PropagateFailure<U>(): Option<U>
      requires None?
    {
      None
    }

    function Extract(): T
      requires Some?
    {
      value
    }

    /** The value, or `default` when absent (Rust's `unwrap_or`). */
    function GetOr(default: T): T {
      match this
      case Some(v) => v
      case None => default
    }
  }

  /** `Success` or `Failure`: the model of Rust's `Result`, and of a panic
      (an `unwrap` on `None`, an out-of-range index) as a typed failure. */
  datatype Result<+R, +E> = Success(value: R) | Failure(error: E) {
    predicate IsFailure() {
      Failure?
    }

    function PropagateFailure<U>(): Result<U, E>
      requires Failure?
    {
      Failure(error)
    }

    function Extract(): R
      requires Success?
    {
      value
    }

    /** Wraps a failure with context (anyhow's `with_context`). */
    function MapFailure<NewE>(wrap: E -> NewE): Result<R, NewE> {
      match this
      case Success(v) => Success(v)
      case Failure(e) => Failure(wrap(e))
    }
  }
}
