/** Optional values and results with an error message, used wherever the
    scripts return `None`, fall back to a default, or raise. */
module Results {

  datatype Option<+T> = None | Some(value: T) {

    /** The value, or `default` when there is none (Python's `x or default`). */
    function GetOr(default: T): T {
      match this
      case Some(v) => v
      case None => default
    }
  }

  /** A member of a decoded JSON object as `obj.get(key, default)` sees it:
      absent, present as JSON `null`, or present with a value. */
  datatype Field<+T> = Missing | Null | Present(value: T) {

    /** `obj.get(key, default)`: the default only when the key is absent;
        a JSON `null` comes back as `None`, not as the default. */
    function Get(default: T): Option<T> {
      match this
      case Missing => Some(default)
      case Null => None
      case Present(v) => Some(v)
    }
  }

  /** `Err` stands for an exception that escapes to the script's top-level
      handler, which aborts the run. */
  datatype Result<+T> = Ok(value: T) | Err(message: string)
}
