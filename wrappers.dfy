/** Optional values: the model's stand-in for a .NET `null` string. */
module Wrappers {

  datatype Option<+T> = None | Some(value: T)
}
