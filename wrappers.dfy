/** The optional value used wherever the source returns "nothing" or raises. */
module Wrappers {

  datatype Option<+T> = None | Some(value: T)
}
