/** Failure-carrying results for the operations of the model that raise in the source. */
module Wrappers {

  /** Either a value or the message of the exception the source raises. */
  datatype Result<T> = Ok(value: T) | Err(msg: string) {
    predicate IsFailure() { Err? }

    function PropagateFailure<U>(): Result<U>
      requires Err?
    {
      Err(msg)
    }

    function Extract(): T
      requires Ok?
    {
      value
    }
  }

  /** Success or the message of the exception, for operations that return nothing. */
  datatype Outcome = Pass | Fail(msg: string) {
    predicate IsFailure() { Fail? }

    function PropagateFailure<U>(): Result<U>
      requires Fail?
    {
      Err(msg)
    }
  }

  datatype Option<T> = None | Some(value: T)

  /** The Python exceptions the modelled code raises, by class name. */
  const KeyError: string := "KeyError"
  const TypeError: string := "TypeError"
  const AssertionError: string := "AssertionError"
  const AttributeError: string := "AttributeError"
  const ValueError: string := "ValueError"
  const IndexError: string := "IndexError"
}
