/** Optional values: a field the upstream JSON may omit, or an operation that may fail. */
module Wrappers {
  datatype Option<+T> = None | Some(value: T)
}
