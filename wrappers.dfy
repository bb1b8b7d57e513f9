/** Option and Result, the two failure types the source's `Option<T>` and `Result<T, E>` stand for. */
module Wrappers {

  datatype Option<+T> = None | Some(value: T)

  datatype Result<+T, +E> = Ok(value: T) | Err(error: E)
}
