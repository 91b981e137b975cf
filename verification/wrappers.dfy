/** The optional value used where the Java code has a null or a -1 sentinel. */
module Wrappers {

  datatype Option<+T> = None | Some(value: T)
}
