/** Failure-carrying results used by the model: `Option` for a lookup that may
    come back empty, `Result` for an operation that either yields a value or
    aborts with an error. */
module Wrappers {

  datatype Option<+T> = None | Some(value: T)

  datatype Result<+T, +E> = Ok(value: T) | Err(error: E)
}
