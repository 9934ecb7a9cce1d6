/** The optional value the capture entry points hand to their callers (Swift's `UIImage?`). */
module Wrappers {
  datatype Option<+T> = None | Some(value: T)
}
