/** The optional value used for blank cells and for "found / not found" searches. */
module Wrappers {

  datatype Option<+T> = None | Some(value: T)
}
