/** Failure-carrying return types shared by the converter and the SQL adapter. */
module Wrappers {

  /** A value that may be missing; `None` is how a conversion reports failure. */
  datatype Option<+T> = None | Some(value: T)

  /** A value or the reason there is none. */
  datatype Result<+T, +E> = Ok(value: T) | Err(error: E)
}
