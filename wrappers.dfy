/** Optional values and results with an error, used for SQL NULLs and for
    the error returns of the storage layer. */
module Wrappers {

  /** A value that may be absent; `None` stands for SQL NULL. */
  datatype Option<+T> = None | Some(value: T)

  /** Either a value or the error the operation returned instead. */
  datatype Result<+T, +E> = Ok(value: T) | Err(error: E)
}
