/** The optional value used where the Java code returns null or throws a recoverable exception. */
module Wrappers {

  datatype Option<+T> = None | Some(value: T)
}
