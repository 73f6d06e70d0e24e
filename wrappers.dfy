/** A value that may be absent; it stands for a reference that may be null. */
module Wrappers {
  datatype Option<T> = None | Some(value: T)
}
