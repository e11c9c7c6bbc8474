/** Failure-carrying values shared by every module: Python's `None` and
    Python's raised exceptions (carried by their `str(e)` message). */
module Results {

  /** A value that may be absent (Python `None`). */
  datatype Option<+T> = None | Some(value: T) {

    /** The wrapped value, or `default` when absent (Python `x or default`
        for a value that is never falsy when present). */
    function GetOr(default: T): T {
      match this
      case Some(v) => v
      case None => default
    }
  }

  /** The outcome of a call that may raise: the returned value, or the
      message of the exception it raised. */
  datatype Result<+T> = Ok(value: T) | Err(error: string)

  /** Python truthiness of an optional string: present and non-empty. */
  predicate Truthy(s: Option<string>) {
    s.Some? && s.value != ""
  }
}
