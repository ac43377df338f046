/** Failure-carrying results, for the operations of the model that can fail. */
module Wrappers {

  /** A value that may be absent, as returned by the external font and framing routines. */
  datatype Option<+T> = None | Some(value: T)

  /** Either a computed value or the error that stopped the computation. */
  datatype Result<+T, +E> = Ok(value: T) | Err(error: E)
}
