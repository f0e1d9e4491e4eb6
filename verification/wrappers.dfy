/** Optional values and fallible results, used for the optional fields of a
    point and for the outcome of constructing one. */
module Wrappers {

  /** A value that may be absent; `None` plays the part of Python's `None`. */
  datatype Option<+T> = None | Some(value: T)

  /** Either a value or the error that prevented producing it. */
  datatype Result<+R, +E> = Success(value: R) | Failure(error: E)
}
