/** Optional values and results, standing for JavaScript's `undefined` and for thrown validation errors. */
module Wrappers {

  datatype Option<T> = None | Some(value: T)

  datatype Result<T, E> = Ok(value: T) | Err(error: E)
}
