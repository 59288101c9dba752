/** The optional value used wherever a parse or a lookup can fail. */
module Wrappers {
  datatype Option<+T> = None | Some(value: T)
}
