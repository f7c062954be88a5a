/** The optional value used where the source returns `null` or a promise may reject. */
module Wrappers {
  datatype Option<+T> = None | Some(value: T)
}
