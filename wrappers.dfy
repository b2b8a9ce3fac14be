/** Optional values, used for the outcomes of parsers, lookups and foreign calls. */
module Wrappers {
  datatype Option<+T> = None | Some(value: T)
}
