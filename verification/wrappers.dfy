/** The optional value used wherever the application may or may not have something to show. */
module Wrappers {

  datatype Option<+T> = None | Some(value: T)
}
