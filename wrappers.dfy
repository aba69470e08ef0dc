/** Outcomes of an operation that can raise one of Python's exceptions. */
module Wrappers {

  /** The exceptions the modelled code can raise. */
  datatype Exception =
    | KeyError    // a dict lookup of an absent key
    | IndexError  // an index outside a string or an array
    | ValueError  // an unparsable integer, or arrays whose shapes do not broadcast

  datatype Result<+T> = Ok(value: T) | Err(error: Exception)

  datatype Option<+T> = None | Some(value: T)
}
