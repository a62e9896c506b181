/** Failure-compatible result types shared by the modules of the snapshot store model. */
module Wrappers {

  /** An optional value: the adapter's `?Snapshot` return and a search that may find nothing. */
  datatype Option<+T> = None | Some(value: T)

  /** A value or the error that stopped its computation. */
  datatype Result<+T, +E> = Success(value: T) | Failure(error: E)

  /** The outcome of an operation that returns nothing on success (a PHP `void` method). */
  datatype Outcome<+E> = Pass | Fail(error: E)
}
