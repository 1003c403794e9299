/** Option and Result, in the shape of the Rust types the library returns. */
module Wrappers {

  /** `Option<usize>`: the single-port queries return `None` when no port is free. */
  datatype Option<+T> = None | Some(value: T)

  /** `Result<Vec<usize>, DynaportError>`. */
  datatype Result<+T, +E> = Ok(value: T) | Err(error: E)
}
