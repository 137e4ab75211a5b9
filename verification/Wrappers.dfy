/** Optional values: absent fields, failed lookups and results that may be missing. */
module Wrappers {

  datatype Option<+T> = None | Some(value: T)
}
