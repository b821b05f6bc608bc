/** Optional values, for lookups that may find nothing. */
module Wrappers {

  /** `None` stands for JavaScript's `undefined` result of a failed lookup. */
  datatype Option<+T> = None | Some(value: T)
}
