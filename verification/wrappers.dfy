/** Optional values, the Python exceptions the core raises, and results that carry either. */
module Wrappers {

  datatype Option<+T> = None | Some(value: T) {
    function GetOr(default: T): T {
      match this
      case Some(v) => v
      case None => default
    }
  }

  /** The exceptions the modelled code raises, each with the message it carries. */
  datatype Error =
    | TypeError(message: string)
    | AttributeError(message: string)
    | ValueError(message: string)
    | ZeroDivisionError(message: string)
    | InvalidOperation(message: string)

  /** A computation that either returns a value or raises one of the errors above. */
  datatype Result<+T> = Success(value: T) | Failure(error: Error) {
    predicate IsFailure() {
      Failure?
    }

    function PropagateFailure<U>(): Result<U>
      requires Failure?
    {
      Failure(error)
    }

    function Extract(): T
      requires Success?
    {
      value
    }
  }
}
