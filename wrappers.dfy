/** The usual optional-value datatype, used for Python operations that either
    produce a value or raise. */
module Wrappers {
  datatype Option<+T> = None | Some(value: T)
}
