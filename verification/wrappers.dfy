/** Rust's `Option` and `Result`, as the envelope types and their codecs use them. */
module Wrappers {

  datatype Option<+T> = None | Some(value: T)

  /** A success value or an error; usable with `:-` like Rust's `?`. */
  datatype Result<+T, +E> = Ok(value: T) | Err(error: E) {

    predicate IsFailure() {
      Err?
    }

    function PropagateFailure<U>(): Result<U, E>
      requires Err?
    {
      Err(error)
    }

    function Extract(): T
      requires Ok?
    {
      value
    }
  }
}
