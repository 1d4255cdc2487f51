/** The optional value used for regular-expression matches that may fail. */
module Wrappers {
  datatype Option<+T> = None | Some(value: T)
}
