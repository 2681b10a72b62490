/** Failure-carrying result types shared by the feed modules. */
module Wrappers {

  /** A value or its absence (`null` / `undefined` in the source). */
  datatype Option<+T> = None | Some(value: T)

  /** A value or the error that a thrown invariant would have reported. */
  datatype Result<+T, +E> = Ok(value: T) | Err(error: E)
}
