/** Optional values, used where the server may produce nothing. */
module Wrappers {

  datatype Option<+T> = None | Some(value: T)
}
