/** Option and Result, the two wrappers the protocol layer's Rust signatures are built from. */
module Results {

  /** `Option<T>`: a value or nothing. */
  datatype Option<+T> = None | Some(value: T) {

    /** The wrapped value, or `default` when there is none. */
    function GetOr(default: T): T
    {
      match this
      case Some(v) => v
      case None => default
    }
  }

  /** `Result<T, E>`: a value or an error. */
  datatype Result<+T, +E> = Ok(value: T) | Err(error: E)
}
