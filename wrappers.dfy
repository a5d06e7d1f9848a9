/** Optional values: JavaScript's `undefined` and failed external calls. */
module Wrappers {
  datatype Option<T> = None | Some(value: T)
}
