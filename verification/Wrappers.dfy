/** A value that may be missing: what a run leads to, or what a directory holds under a name. */
module Wrappers {
  datatype Option<T> = None | Some(value: T)
}
