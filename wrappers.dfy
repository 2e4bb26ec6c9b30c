/** Option and Result datatypes, usable with `:-`. */
module Wrappers {

  datatype Option<+T> = None | Some(value: T) {
    predicate IsFailure() { None? }

    function PropagateFailure<U>(): Option<U>
      requires None?
    {
      None
    }

    function Extract(): T
      requires Some?
    {
      value
    }
  }

  /** The outcome of validating a configuration: the accepted IDs, or the message of the thrown `Error`. */
  datatype Result<+T> = Ok(value: T) | Err(message: string)
}
