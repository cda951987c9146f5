/** `Option` and `Result`, as in Rust, shared by the other modules. */
module Wrappers {

  /** The Rust `Option`. */
  datatype Option<+T> = None | Some(value: T)

  /** A computation that either yields a value or stops with an error. */
  datatype Result<+T, +E> = Ok(value: T) | Err(error: E)
}
