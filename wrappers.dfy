/** Option, for a lookup that may find no row. */
module Wrappers {
  datatype Option<+T> = None | Some(value: T)
}
