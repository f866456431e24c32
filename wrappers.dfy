/** Option and Result values used for JavaScript's null/undefined/NaN and for thrown errors. */
module Wrappers {

  /** `None` plays the part of JavaScript's `null`, `undefined` or `NaN`, depending on the use. */
  datatype Option<+T> = None | Some(value: T)

  /** `Err` plays the part of an exception thrown by the source. */
  datatype Result<+T, +E> = Ok(value: T) | Err(error: E)
}
