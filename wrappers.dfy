/** Optional values and success-or-error results, shared by the other modules. */
module Wrappers {

  /** A value that may be absent (a null pointer, a missing map entry). */
  datatype Option<T> = None | Some(value: T)

  /** Either a value or an error. */
  datatype Result<T, E> = Ok(value: T) | Err(error: E)
}
