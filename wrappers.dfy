/** A value that may be absent: JavaScript's `null`, or a number that is not a finite real. */
module Wrappers {
  datatype Option<+T> = None | Some(value: T)
}
