/** Ruby's `nil`-or-value, as a datatype. */
module Wrappers {

  datatype Option<+T> = None | Some(value: T)
}
