/** Optional values: a field the cluster API may report as null. */
module Wrappers {
  datatype Option<+T> = None | Some(value: T)
}
