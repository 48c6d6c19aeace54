/** Optional values, used wherever the source can fail or produce nothing. */
module Wrappers {

  datatype Option<T> = None | Some(value: T)
}
