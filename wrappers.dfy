/** Result shapes shared by the list operations. */
module Wrappers {

  /** Ruby's `nil` as an explicit absent value: an empty list, no matching node. */
  datatype Option<+T> = None | Some(value: T)

  /** A call that either completes or raises `ArgumentError` before changing anything. */
  datatype Result<+R> = Ok(value: R) | ArgumentError
}
