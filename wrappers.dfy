/** Option, the stand-in for a call that may raise. */
module Wrappers {

  datatype Option<+T> = None | Some(value: T)

}
