/** Option and Result, the outcomes the pipeline's tolerant steps produce
    instead of raising. */
module Wrappers {

  datatype Option<+T> = None | Some(value: T)

  datatype Result<+T, +E> = Success(value: T) | Failure(error: E)
}
