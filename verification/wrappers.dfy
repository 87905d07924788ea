/** The optional value shared by the skip-list specification and the log reader. */
module Wrappers {
  datatype Option<T> = None | Some(value: T)
}
