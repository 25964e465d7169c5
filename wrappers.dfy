/** The optional value used for the store of one kernel invocation. */
module Wrappers {
  datatype Option<+T> = None | Some(value: T)
}
