/** Optional values: JavaScript's `undefined` result and optional fields. */
module Wrappers {

  datatype Option<+T> = None | Some(value: T)
}
