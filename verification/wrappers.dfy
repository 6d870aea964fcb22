/** Optional values and results used across the model: an optional value for
    JavaScript's `null`/`undefined` and a result for operations that can fault. */
module Wrappers {

  /** `None` stands for `null` (or `undefined`) in the game's state record. */
  datatype Option<+T> = None | Some(value: T)

  /** `Failure` stands for an exception thrown by the game code. */
  datatype Result<+R, +E> = Success(value: R) | Failure(error: E)
}
