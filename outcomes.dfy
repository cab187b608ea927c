/** Optional values and success-or-failure results, used for nullable columns,
    absent request fields and error responses. */
module Outcomes {

  datatype Option<T> = None | Some(value: T) {
    /** The value, or `default` when absent (Python's `x or default` on a nullable column). */
    function Or(default: T): T {
      match this
      case Some(v) => v
      case None => default
    }
  }

  datatype Result<T, E> = Ok(value: T) | Err(error: E)
}
