/** Absence as a value: the Java code answers "not found" with null. */
module Wrappers {

  datatype Option<+T> = None | Some(value: T)
}
