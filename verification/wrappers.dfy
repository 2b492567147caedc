/** Optional values and results with an error, used where the widget reads
    `null`/`undefined` or where a step of the widget would throw. */
module Wrappers {

  /** `None` stands for JavaScript's `null` or `undefined`. */
  datatype Option<+T> = None | Some(value: T)

  /** `Failure` stands for a step that throws instead of finishing. */
  datatype Result<+T, +E> = Success(value: T) | Failure(error: E)
}
