/** Failure-carrying values shared by the contract model and the avatar model. */
module Wrappers {

  /** A value that may be absent: Rust's `Option`, or a JavaScript `undefined`. */
  datatype Option<+T> = None | Some(value: T)

  /** Either a value or the reason the computation stopped. */
  datatype Result<+R, +E> = Success(value: R) | Failure(error: E)
}
