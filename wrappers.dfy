/** Optional values and error returns, used where the Python code returns None or raises. */
module Wrappers {

  /** A dict lookup that may find nothing (`d.get(k)` returning None). */
  datatype Option<+T> = None | Some(value: T)

  /** A value, or the exception the Python code would raise instead. */
  datatype Result<+T, +E> = Ok(value: T) | Err(error: E)
}
