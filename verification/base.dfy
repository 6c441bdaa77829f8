/** Optional values and success-or-error results, used for the fields a parsed
    document may omit and for outcomes that can fail. */
module Base {

  /** A value that may be absent, like a key missing from a decoded dictionary. */
  datatype Option<+T> = None | Some(value: T) {

    /** The value, or `default` when absent: the model of `dict.get(key, default)`. */
    function GetOr(default: T): T {
      match this
      case Some(v) => v
      case None => default
    }
  }

  /** The outcome of a step that either produces a value or fails with an error. */
  datatype Result<+T, +E> = Ok(value: T) | Err(error: E)
}
