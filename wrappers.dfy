/** The optional value used for routes and flow-table lookups. */
module Wrappers {
  datatype Option<T> = None | Some(value: T)
}
