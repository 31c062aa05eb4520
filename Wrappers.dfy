/** The optional value used where the Java code returns `null` or a sentinel. */
module Wrappers {
  datatype Option<T> = None | Some(value: T)
}
