/** Failure-carrying datatypes and the byte type, shared by the whole
    model. */
module Wrappers {

  /** Rust's `u8`, the unit of the rendered document and of uploads. */
  type byte = b: int | 0 <= b < 256

  /** Rust's `Option<T>`. */
  datatype Option<+T> = None | Some(value: T)

  /** Rust's `Result<T, E>`. */
  datatype Result<+T, +E> = Ok(value: T) | Err(error: E)

  /** The outcome of running code that may panic: either it returns a value
      or the thread panics (a slice out of range, a slice boundary inside a
      character). A panic is modelled as a value, so that the callers can
      say exactly which inputs reach it. */
  datatype Run<+T> = Returns(value: T) | Panics
}
