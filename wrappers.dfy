/** Optional values, used wherever the source parses something that may fail. */
module Wrappers {

  datatype Option<+T> = None | Some(value: T)

}
