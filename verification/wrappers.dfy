/** Option and Result, the two shapes the pool's answers take. */
module Wrappers {

  /** `None` stands for JavaScript's `null`/`undefined` where the pool answers "absent". */
  datatype Option<+T> = None | Some(value: T)

  /** The settlement of the promise returned by `add`: resolved or rejected. */
  datatype Result<+R, +E> = Success(value: R) | Failure(error: E)
}
