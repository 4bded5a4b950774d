/** Failure-carrying values shared by the modules of this model. */
module Wrappers {

  /** A value that may be absent; in the audio tag lists, `None` is the hole
      (`undefined`) that JavaScript's `delete` leaves in an array. */
  datatype Option<+T> = None | Some(value: T)

  /** The outcome of an operation that can fail. */
  datatype Result<+R, +E> = Success(value: R) | Failure(error: E)
}
