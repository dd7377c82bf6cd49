/** Optional values, standing in for Swift optionals (`T?`). */
module Wrappers {

  datatype Option<+T> = None | Some(value: T)
}
