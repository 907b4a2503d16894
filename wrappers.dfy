/** The optional value used for nullable foreign keys, absent images and failed lookups. */
module Wrappers {
  datatype Option<+T> = None | Some(value: T)
}
