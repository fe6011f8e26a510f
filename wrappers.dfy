/** The optional-value datatype used where PHP returns `false` or `null` for "nothing". */
module Wrappers {
  datatype Option<+T> = None | Some(value: T)
}
