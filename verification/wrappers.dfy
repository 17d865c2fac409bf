/** Optional values: a missing file path, a missing match, an unreadable file. */
module Wrappers {
  datatype Option<+T> = None | Some(value: T)
}
