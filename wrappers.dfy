/** Optional values: JavaScript's `null` / `undefined` references become `None`. */
module Wrappers {
  datatype Option<+T> = None | Some(value: T)
}
