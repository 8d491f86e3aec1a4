/** Failure-carrying values shared by every module of the router model. */
module Wrappers {

  /** PHP's `null`-or-value, and "not found" results. */
  datatype Option<+T> = None | Some(value: T)

  /** A `\RuntimeException` (or an `App::failure` exit) as a value: the
      exception code and its message. A code of 0 is PHP's default when
      the exception is thrown without one. */
  datatype Failure = Failure(code: int, message: string)

  /** The result of an operation that may throw. */
  datatype Result<+T> = Ok(value: T) | Err(error: Failure) {
    predicate IsFailure() {
      Err?
    }

    function PropagateFailure<U>(): Result<U>
      requires Err?
    {
      Err(error)
    }

    function Extract(): T
      requires Ok?
    {
      value
    }
  }
}
