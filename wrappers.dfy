/**
 * Option and Result, the two shapes the kernel uses for "maybe a value" and "a value or an
 * error", and Outcome, which records whether a call returns or stops the kernel with a panic
 * (a failed `assert!`, an `unwrap` of `None`, an out-of-range slice).
 */
module Wrappers {
  datatype Option<T> = None | Some(value: T)

  datatype Result<T, E> = Ok(value: T) | Err(error: E)

  datatype Outcome<T> = Done(value: T) | Panic
}
