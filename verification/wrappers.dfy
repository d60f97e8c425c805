/** Option and Result values shared by every module of the model. */
module Wrappers {
  datatype Option<T> = None | Some(value: T)

  /** A Rust `panic!`/`unwrap` failure or a JavaScript error is an `Err`. */
  datatype Result<T> = Ok(value: T) | Err(error: string)
}
