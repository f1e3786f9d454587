/** Option and Result values standing in for `None` and for raised errors. */
module Wrappers {

  /** An optional value: the `fraction: float | None` argument of `simulate_kelly`. */
  datatype Option<+T> = None | Some(value: T)

  /** Either a computed value or the error that was raised instead. */
  datatype Result<+R, +E> = Success(value: R) | Failure(error: E)
}
