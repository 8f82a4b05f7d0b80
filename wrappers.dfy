/** The optional value used for the handler's single message slot. */
module Wrappers {
  datatype Option<+T> = None | Some(value: T)
}
