/** The optional value used for Go's nil results and nil errors. */
module Wrappers {

  datatype Option<+T> = None | Some(value: T)
}
