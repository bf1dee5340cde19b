/** Failure-carrying values shared by every module of the model. */
module Base {

  /** Rust's `Option<T>`. */
  datatype Option<+T> = None | Some(value: T) {

    /** `unwrap_or`: the carried value, or `default` when there is none. */
    function GetOr(default: T): T {
      match this
      case Some(v) => v
      case None => default
    }
  }

  /** Rust's `Result<T, String>`: every fallible operation of the model reports a message. */
  datatype Result<+T> = Ok(value: T) | Err(error: string)
}
