/** The optional value used where the source may produce nothing. */
module Wrappers {

  datatype Option<+T> = None | Some(value: T)
}
