/** Option and Result, the two failure-carrying shapes the Rust code uses. */
module Wrappers {

  /** Rust's `Option<T>`. */
  datatype Option<+T> = None | Some(value: T)

  /** Rust's `Result<T, E>`; an `unwrap` on `Failure` is a panic. */
  datatype Result<+T, +E> = Success(value: T) | Failure(error: E)
}
