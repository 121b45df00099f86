/** Optional values and results with an error, shared by the other modules. */
module Outcomes {

  datatype Option<T> = None | Some(value: T)

  /** A value, or the error the source would raise instead of returning. */
  datatype Result<T, E> = Ok(value: T) | Err(error: E)
}
