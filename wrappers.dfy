/** Optional values and error-carrying results, used where the source returns
    a possibly-nil pointer or a (value, error) pair. */
module Wrappers {

  /** A nil-able pointer: `None` stands for Go's `nil`. */
  datatype Option<+T> = None | Some(value: T)

  /** A value or an error, for Go's `(value, error)` return pairs. */
  datatype Result<+R, +E> = Success(value: R) | Failure(error: E)
}
