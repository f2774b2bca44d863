/** Optional values and results with an error path. */
module Wrappers {

  /** A possibly empty cell or lookup: `None` stands for pandas' NaN/NaT or a missing document. */
  datatype Option<+T> = None | Some(value: T)

  /** The outcome of an operation the source can abort with an exception. */
  datatype Result<+T, +E> = Ok(value: T) | Err(error: E)
}
