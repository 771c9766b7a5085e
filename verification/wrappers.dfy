/** Option and Result as the model uses them: an unset storage slot, and an
    entry point that either returns or panics. */
module Wrappers {

  /** A storage slot that may be unset, or any value that may be absent. */
  datatype Option<+T> = None | Some(value: T) {

    /** Rust's `unwrap_or`: the stored value, or `default` for an unset slot. */
    function UnwrapOr(default: T): T {
      if Some? then value else default
    }
  }

  /** The outcome of an entry point: a value, or the error it panicked with. */
  datatype Result<+R, +E> = Success(value: R) | Failure(error: E)
}
