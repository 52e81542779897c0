/** Option and Result, the shapes of Rust's `Option` and `Result` used by the model. */
module Wrappers {

  datatype Option<+T> = None | Some(value: T)

  datatype Result<+T, +E> = Ok(value: T) | Err(error: E)

  function Min(a: int, b: int): int
  {
    if a <= b then a else b
  }
}
