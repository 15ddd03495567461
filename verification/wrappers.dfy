/** The optional value used for nullable pointers and failed lookups. */
module Wrappers {
  datatype Option<+T> = None | Some(value: T)
}
