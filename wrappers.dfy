/** The optional value used wherever the editor either produces something or nothing. */
module Wrappers {
  datatype Option<+T> = None | Some(value: T)
}
