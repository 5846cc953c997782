/** Optional values: a nullable column, an absent form field, a failed lookup. */
module Wrappers {
  datatype Option<+T> = None | Some(value: T)
}
