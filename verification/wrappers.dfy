/** Optional values and results shared by both pipelines. */
module Wrappers {

  /** A value that may be missing: a NaN cell of a table, or an optional step result. */
  datatype Option<+T> = None | Some(value: T)

  /** The outcome of a conversion: a value, or the error the source would raise. */
  datatype Result<+R, +E> = Success(value: R) | Failure(error: E)
}
