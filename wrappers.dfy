/** Optional values and the outcome of a Python call that may raise. */
module Wrappers {

  datatype Option<+T> = None | Some(value: T)

  /** The Python exception classes that the modelled code raises or catches.
      Exception messages are not modelled. */
  datatype PyError = KeyError | IndexError | TypeError | ValueError | AttributeError

  /** The outcome of a Python expression: its value, or the exception it raises. */
  datatype Result<+T> = Ok(value: T) | Err(error: PyError) {

    predicate IsFailure() {
      Err?
    }

    function PropagateFailure<U>(): Result<U>
      requires Err?
    {
      Err(error)
    }

    function Extract(): T
      requires Ok?
    {
      value
    }
  }
}
