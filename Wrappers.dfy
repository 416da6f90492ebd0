/** The optional value used for the outcomes of the external tools. */
module Wrappers {
  datatype Option<+T> = None | Some(value: T)
}
