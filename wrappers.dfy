/** Optional values: a null pointer in the C program becomes None. */
module Wrappers {
  datatype Option<+T> = None | Some(value: T)
}
