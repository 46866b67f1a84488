/** Failure-carrying results shared by the merge engine and the dispatcher. */
module Wrappers {

  datatype Option<+T> = None | Some(value: T)

  /** The outcome of an operation that the program can abort with an exception. */
  datatype Result<+R, +E> = Success(value: R) | Failure(error: E)
}
