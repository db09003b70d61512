/** Option and Result, spelled as in Rust (`Some`/`None`, `Ok`/`Err`). */
module Wrappers {

  datatype Option<+T> = None | Some(value: T)

  datatype Result<+T, +E> = Ok(value: T) | Err(error: E)
}
