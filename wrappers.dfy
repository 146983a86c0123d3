/** Optional values and results with an error, used where the source returns
    `undefined` or throws. */
module Wrappers {

  /** `None` stands for JavaScript's `undefined`. */
  datatype Option<+T> = None | Some(value: T)

  /** `Failure` stands for an exception thrown by the operation. */
  datatype Result<+R, +E> = Success(value: R) | Failure(error: E)
}
