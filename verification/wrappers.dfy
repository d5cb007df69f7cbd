/** The optional value used for sparse result slots and lookups. */
module Wrappers {

  datatype Option<+T> = None | Some(value: T)
}
