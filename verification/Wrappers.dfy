/** An optional value, for signals that may be absent and operations that may fail. */
module Wrappers {
  datatype Option<+T> = None | Some(value: T)
}
