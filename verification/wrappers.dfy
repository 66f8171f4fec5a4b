/** Optional values, used where the tool either produces a value or stops
    with an uncaught exception. */
module Wrappers {
  datatype Option<+T> = None | Some(value: T)
}
