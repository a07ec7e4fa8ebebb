/** The optional value used for "no such row" answers. */
module Wrappers {
  datatype Option<+T> = None | Some(value: T)
}
