/** Optional values and results shared by the formatter modules. */
module Basics {

  /** A JSON key that may be absent. */
  datatype Option<T> = None | Some(value: T)

  /** The value of an operation, or the exception the Python code would raise. */
  datatype Result<T, E> = Ok(value: T) | Err(error: E)
}
