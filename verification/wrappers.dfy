/** Failure-compatible result types shared by the codec modules.
    `Result` stands in for `anyhow::Result`, with a closed error type instead of
    a dynamically typed message; `Option` stands in for Rust's `Option`. */
module Wrappers {

  datatype Option<+T> = None | Some(value: T)

  datatype Result<+T, +E> = Ok(value: T) | Err(error: E) {

    /** True if this is an error, so that `:-` propagates it (Rust's `?`). */
    predicate IsFailure() {
      Err?
    }

    function PropagateFailure<U>(): Result<U, E>
      requires Err?
    {
      Err(error)
    }

    function Extract(): T
      requires Ok?
    {
      value
    }
  }
}
