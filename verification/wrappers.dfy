/** Failure-carrying values returned by the pipeline's operations. */
module Wrappers {

  /** A value that may be absent. */
  datatype Option<+T> = None | Some(value: T)

  /** Either a computed value or the error the operation raised instead. */
  datatype Result<+R, +E> = Success(value: R) | Failure(error: E)
}
