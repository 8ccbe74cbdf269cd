/** Optional values, used where the component's code can come back with nothing. */
module Wrappers {
  datatype Option<T> = None | Some(value: T)
}
