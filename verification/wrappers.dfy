/** Failure-compatible optional values, used for Swift's optionals. */
module Wrappers {

  /** A value that may be absent: Swift's `T?`. */
  datatype Option<+T> = None | Some(value: T)
}
