/** A value that may be missing: the program's NULL, or a failure. */
module Wrappers {
  datatype Option<+T> = None | Some(value: T)
}
