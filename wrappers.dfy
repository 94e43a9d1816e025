/** The optional-value datatype used where the source returns `undefined` or a value. */
module Wrappers {
  datatype Option<+T> = None | Some(value: T)
}
