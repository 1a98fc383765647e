/** Option and Result values for the fallible steps of the walker: a parse that
    fails, an RPC lookup that misses, an `unwrap` on an empty list. */
module Results {

  datatype Option<+T> = None | Some(value: T) {
    /** Rust's `unwrap_or`. */
    function UnwrapOr(default: T): T {
      match this
      case Some(v) => v
      case None => default
    }
  }

  datatype Result<+T, +E> = Ok(value: T) | Err(error: E)
}
