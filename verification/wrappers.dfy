/** Failure-carrying result types shared by the routing modules. */
module Wrappers {

  /** A value that may be absent, as a missing cell of the location table is. */
  datatype Option<+T> = None | Some(value: T)

  /** Either a computed value or the reason the computation was refused. */
  datatype Result<+T, +E> = Success(value: T) | Failure(error: E)
}
