/** Optional values: Java's `null` references, made explicit. */
module Wrappers {
  datatype Option<+T> = None | Some(value: T)
}
