/** JavaScript's `undefined` and a thrown exception, made explicit. */
module Wrappers {

  /** A value that may be JavaScript's `undefined`. */
  datatype Option<+T> = Undefined | Defined(value: T)

  /** `Err` stands for an exception thrown by the JavaScript runtime. */
  datatype Result<+T, +E> = Ok(value: T) | Err(error: E)
}
