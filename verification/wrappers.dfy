/** Failure-carrying result types shared by the codec modules. */
module Wrappers {

  /** An optional value: Rust's `Option`. */
  datatype Option<+T> = None | Some(value: T)

  /** A success value or an error message: Rust's `Result<T, &'static str>`. */
  datatype Result<+T> = Ok(value: T) | Err(error: string)
}
