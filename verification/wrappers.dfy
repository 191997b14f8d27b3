/** Option and Result, the failure-carrying values the driver returns. */
module Wrappers {

  /** `None` or a value, as Rust's `Option`. */
  datatype Option<+T> = None | Some(value: T)

  /** A value or an error, as Rust's `Result`. */
  datatype Result<+T, +E> = Ok(value: T) | Err(error: E)
}
