/**
 * Small shared datatypes: an optional value (std::optional, Python's None)
 * and a result that is either a value or the message of the exception the
 * source would throw.
 */
module Wrappers {

  datatype Option<T> = None | Some(value: T)

  datatype Result<T> = Ok(value: T) | Err(message: string)
  {
    predicate IsFailure() { Err? }
  }

  /** Little helper: a byte. */
  type byte = bv8
}
