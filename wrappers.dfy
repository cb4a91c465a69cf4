/** Optional values: Go's nil pointer or nil error on one side, a value on the other. */
module Wrappers {

  datatype Option<+T> = None | Some(value: T)
}
