/** The optional value used for operations that can fail (a Java exception). */
module Wrappers {

  datatype Option<+T> = None | Some(value: T)
}
