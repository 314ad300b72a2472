/** The optional value used for nullable callbacks and lookup results. */
module Wrappers {

  datatype Option<+T> = None | Some(value: T)
}
