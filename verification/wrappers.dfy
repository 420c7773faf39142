/** Failure-carrying datatypes shared by the model: `Option` for the
    source's `undefined`/`null` values and `Result` for its thrown errors. */
module Wrappers {

  datatype Option<+T> = None | Some(value: T) {

    /** The value carried by `Some`, or `default` when `None`. */
    function GetOr(default: T): T {
      match this
      case Some(v) => v
      case None => default
    }
  }

  datatype Result<+R, +E> = Success(value: R) | Failure(error: E) {

    predicate IsFailure() {
      Failure?
    }

    function PropagateFailure<U>(): Result<U, E>
      requires Failure?
    {
      Failure(error)
    }

    function Extract(): R
      requires Success?
    {
      value
    }
  }
}
