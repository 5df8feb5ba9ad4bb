/** The optional value returned by the grid's lookups. */
module Wrappers {

  datatype Option<+T> = None | Some(value: T)
}
