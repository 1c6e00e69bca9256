/** Optional values, used for the `type` field of a status message and for parsing hex dumps. */
module Wrappers {
  datatype Option<+T> = None | Some(value: T)
}
