/** Optional values: `None` stands for a JavaScript `undefined` argument. */
module Wrappers {
  datatype Option<T> = None | Some(value: T)
}
