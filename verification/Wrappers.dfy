/** The two failure-carrying results every other module shares. */
module Wrappers {

  /** A value that may be absent: a missing file, an option that does not convert. */
  datatype Option<+T> = None | Some(value: T)

  /** The outcome of an operation of the daemon that may throw. */
  datatype Result<+R, +E> = Success(value: R) | Failure(error: E)
}
