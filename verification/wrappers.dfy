/** Option and Result, for the error paths of the core (a missing evaluation
    domain, a panicking length assertion, an out-of-range index). */
module Wrappers {

  datatype Option<+T> = None | Some(value: T)

  datatype Result<+T, +E> = Ok(value: T) | Err(error: E)
}
