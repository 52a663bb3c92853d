/** Optional values: the model's stand-in for C#'s nullable `string?` and `DateTime?`. */
module Wrappers {
  datatype Option<+T> = None | Some(value: T)
}
