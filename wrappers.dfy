/** Option and Result types for the lookups and mutations that can fail in the source. */
module Wrappers {

  datatype Option<+T> = None | Some(value: T)

  /** The Python exceptions that the modelled code can raise. */
  datatype Error =
    | KeyError        // a missing key or section name
    | IndexError      // an integer index outside the flag list
    | AttributeError  // `.split` called on a value that is not a string

  datatype Result<+T> = Ok(value: T) | Err(error: Error)

  /** The outcome of a call that returns nothing but may raise. */
  datatype Outcome = Pass | Fail(error: Error)
}
