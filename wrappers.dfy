/** Optional values, for the conversions that fail by returning nothing. */
module Wrappers {

  datatype Option<+T> = None | Some(value: T)
}
