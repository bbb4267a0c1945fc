/** Failure-compatible result types used where the source returns null or throws. */
module Wrappers {

  /** An optional value: `None` stands for a C# `null` or an absent dictionary entry. */
  datatype Option<+T> = None | Some(value: T)

  /** The value of a computation that may raise an exception instead of returning. */
  datatype Result<+R, +E> = Success(value: R) | Failure(error: E)
}
