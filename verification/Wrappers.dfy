/**
 A value that may be missing, for results that are nothing and for pointers that may be null.
 */
module Wrappers {

  datatype Option<+T> = None | Some(value: T)
}
