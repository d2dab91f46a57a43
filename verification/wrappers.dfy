/** Optional values: a lookup that may miss, a column a caller may leave out. */
module Wrappers {

  datatype Option<+T> = None | Some(value: T)
}
