/** Rust's `Option` and the host API's `Result<T>` (whose error is a message string). */
module Wrappers {

  datatype Option<+T> = None | Some(value: T)

  datatype Result<+T> = Ok(value: T) | Err(error: string)
}
