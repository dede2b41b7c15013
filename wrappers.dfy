/** Option and Result, the value-level stand-ins for JavaScript's
    `undefined`/`null` and for an error response of an endpoint. */
module Wrappers {

  datatype Option<+T> = None | Some(value: T)

  datatype Result<+T, +E> = Ok(value: T) | Err(error: E)
}
