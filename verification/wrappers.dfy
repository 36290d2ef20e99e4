/** Option and Result, used by every module of the decoder. */
module Wrappers {

  /** An optional value: the source's `Option<T>`. */
  datatype Option<+T> = None | Some(value: T)

  /** A value or a failure: the model's stand-in for a Rust function that may panic. */
  datatype Result<+T, +E> = Ok(value: T) | Err(error: E)
}
