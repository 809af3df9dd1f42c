/** Failure-carrying datatypes shared by both editor designs. */
module Wrappers {

  /** An optional value, the counterpart of Rust's `Option`. */
  datatype Option<+T> = None | Some(value: T)

  /** A value or an error, the counterpart of Rust's `Result`; `:-` plays
      the part of Rust's `?`. */
  datatype Result<+T, +E> = Ok(value: T) | Err(error: E) {
    predicate IsFailure() {
      Err?
    }

    function PropagateFailure<U>(): Result<U, E>
      requires Err?
    {
      Err(error)
    }

    function Extract(): T
      requires Ok?
    {
      value
    }
  }
}
