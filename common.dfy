/** Optional values and results with an error, as the credit pipeline uses them. */
module Common {

  /** A value that may be absent: a missing dictionary key, a JSON null. */
  datatype Option<+T> = None | Some(value: T) {

    /** The value, or `default` when it is absent (Python's `dict.get(key, default)`). */
    function GetOr(default: T): T {
      match this
      case Some(v) => v
      case None => default
    }
  }

  /** The outcome of an operation that either succeeds or raises. */
  datatype Result<+R, +E> = Ok(value: R) | Err(error: E)
}
