/** Option and Result as in Rust, plus Outcome, which records whether an
    operation returned a value or panicked (an `assert!`, an `unwrap()` on a
    failure, an `unreachable!()`). */
module Outcomes {

  datatype Option<+T> = None | Some(value: T)

  datatype Result<+T, +E> = Ok(value: T) | Err(error: E)

  /** The observable end of a Rust call: a returned value, or a panic with its message. */
  datatype Outcome<+T> = Done(value: T) | Panic(message: string)
}
