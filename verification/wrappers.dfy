/** Failure-carrying datatypes shared by every module of the model.
    `Option` models Python's `None`-or-value returns; `Result` models a value
    or a raised exception (the error names the Python exception class). */
module Wrappers {

  datatype Option<+T> = None | Some(value: T)

  /** The Python exception classes the modelled code can raise. */
  datatype PyError =
    | KeyError(key: string)
    | IndexError
    | ValueError(message: string)
    | ZeroDivisionError
    | NameError(name: string)
    | TypeError
    | EOFError
    | AttributeError
    | AssertionError

  datatype Result<+R> = Success(value: R) | Failure(error: PyError) {
    predicate IsFailure() {
      Failure?
    }

    function PropagateFailure<U>(): Result<U>
      requires Failure?
    {
      Failure(error)
    }

    function Extract(): R
      requires Success?
    {
      value
    }
  }
}
