/** Failure-carrying wrappers used throughout the model: `Option` for Rust's
    `Option<T>` and `Result` for the `anyhow::Result` errors of the commands. */
module Options {

  datatype Option<+T> = None | Some(value: T) {

    /** The wrapped value, or `default` when there is none (Rust's `unwrap_or`). */
    function GetOr(default: T): T {
      match this
      case Some(v) => v
      case None => default
    }
  }

  datatype Result<+R, +E> = Success(value: R) | Failure(error: E)
}
