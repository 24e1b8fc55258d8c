/** The optional value used for the bounds of a time frame. */
module Wrappers {

  datatype Option<+T> = None | Some(value: T)

}
