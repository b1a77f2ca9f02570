/** Option and Result, the shapes Go's `(value, error)` pairs and zero-value sentinels become here. */
module Wrappers {

  datatype Option<+T> = None | Some(value: T)

  datatype Result<+T, +E> = Ok(value: T) | Err(error: E)
}
