/** Option and Result values used where the controllers return null or an error response. */
module Wrappers {

  /** A value that may be absent; `None` stands for C#'s `null`. */
  datatype Option<+T> = None | Some(value: T)

  /** A successful value or an error. */
  datatype Result<+R, +E> = Success(value: R) | Failure(error: E)
}
