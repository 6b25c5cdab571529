/** Option and Result, the failure-carrying values used by the catalog model. */
module Wrappers {

  datatype Option<+T> = None | Some(value: T)

  /** The outcome of a catalog operation: a value, or the error the caller receives. */
  datatype Result<+R, +E> = Success(value: R) | Failure(error: E)
}
