/** An optional value, standing in for Ruby's `nil`-or-something. */
module Wrappers {

  datatype Option<+T> = None | Some(value: T)
}
