/** The optional value used where the Java code returns null or may have nothing to return. */
module Wrappers {

  datatype Option<+T> = None | Some(value: T)
}
