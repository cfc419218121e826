/** A value that may be absent, as a nullable field of the editor's state. */
module Wrappers {
  datatype Option<T> = None | Some(value: T)
}
