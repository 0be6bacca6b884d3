/** The optional-value datatype used for the transport error that may accompany a receive. */
module Wrappers {

  datatype Option<+T> = None | Some(value: T)
}
