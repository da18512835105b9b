/** Optional values and results with an error, used by the replay engine. */
module Wrappers {

  /** An optional value; `None` stands for JavaScript's `undefined`. */
  datatype Option<+T> = None | Some(value: T)

  /** Either a value or the error that prevented producing it. */
  datatype Result<+R, +E> = Success(value: R) | Failure(error: E)
}
