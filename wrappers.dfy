/** The absent-or-present value the store's lookups return (Ruby's `nil` or a record). */
module Wrappers {

  datatype Option<+T> = None | Some(value: T)
}
