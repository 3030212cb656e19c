/** Option stands for a shared pointer that may be null; Result for an
    operation that either yields a value or fails with an enforced-precondition
    error. */
module Wrappers {

  datatype Option<+T> = None | Some(value: T)

  datatype Result<+T, +E> = Ok(value: T) | Err(error: E)
}
