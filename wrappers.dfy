/** Option and Result values used for the script's partial operations. */
module Wrappers {

  datatype Option<+T> = None | Some(value: T)

  /** The outcome of an operation that raises in the script instead of returning. */
  datatype Result<+R, +E> = Success(value: R) | Failure(error: E)
}
