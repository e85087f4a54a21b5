/** Option and Result values used where the PHP code returns `false` or throws. */
module Wrappers {

  datatype Option<+T> = None | Some(value: T)

  /** `Failure` carries the translation key of the exception the PHP code throws. */
  datatype Result<+T, +E> = Success(value: T) | Failure(error: E)
}
