/** The optional value used where Python answers `None` or raises a lookup error. */
module Wrappers {

  datatype Option<+T> = None | Some(value: T)
}
