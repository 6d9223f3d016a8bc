/** A value that may be missing: a lookup that raises in the source returns None here. */
module Wrappers {
  datatype Option<+T> = None | Some(value: T)
}
