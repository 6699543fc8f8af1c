/** Failure-compatible wrappers shared by the model: Ruby's `nil` becomes
    `None`, and a raised exception becomes an `Err` carrying what was raised. */
module Wrappers {

  datatype Option<+T> = None | Some(value: T) {

    /** Ruby's `x || default`: the value when present, else the default. */
    function GetOr(default: T): T {
      match this
      case Some(v) => v
      case None => default
    }
  }

  datatype Result<+T, +E> = Ok(value: T) | Err(error: E) {

    predicate IsFailure() {
      Err?
    }

    function PropagateFailure<U>(): Result<U, E>
      requires Err?
    {
      Err(error)
    }

    function Extract(): T
      requires Ok?
    {
      value
    }
  }
}
