/** Option and Result, the shapes the authorizer's `undefined` values and its
    throw/catch paths take in this model. */
module Wrappers {

  /** A value that may be absent, as `undefined` is in the handler. */
  datatype Option<+T> = None | Some(value: T)

  /** Either a value or the reason the computation stopped. */
  datatype Result<+T, +E> = Ok(value: T) | Err(error: E)
}
