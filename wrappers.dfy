/** Small shared definitions: an optional value, a result, and a byte. */
module Wrappers {

  datatype Option<+T> = None | Some(value: T)

  datatype Result<+R, +E> = Success(value: R) | Failure(error: E)

  /** An 8-bit byte, as Go's `byte`. */
  type byte = b: int | 0 <= b < 256
}
