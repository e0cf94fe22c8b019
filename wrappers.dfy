/** Option and Result, standing for Rust's Option<T> and for the error exits of main.rs. */
module Wrappers {

  datatype Option<+T> = None | Some(value: T) {

    /** Rust's `.unwrap()`: the precondition is the proof obligation that it never panics. */
    function Unwrap(): T
      requires Some?
    {
      value
    }
  }

  datatype Result<+R, +E> = Success(value: R) | Failure(error: E)
}
