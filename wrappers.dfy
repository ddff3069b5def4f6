/** Optional values and results: how the model represents `dict.get` defaults and
    the crash of an out-of-range list index. */
module Wrappers {

  datatype Option<+T> = None | Some(value: T)

  datatype Result<+T, +E> = Success(value: T) | Failure(error: E)
}
