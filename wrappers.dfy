/** The optional-value datatype used for "no mark" and "no winner". */
module Wrappers {
  datatype Option<+T> = None | Some(value: T)
}
