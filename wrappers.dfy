/** Optional values, standing in for the C# `null` results of lookups. */
module Wrappers {
  datatype Option<+T> = None | Some(value: T)
}
