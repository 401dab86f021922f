/** The optional value returned by lookups and by `take_checked`. */
module Wrappers {
  datatype Option<+T> = None | Some(value: T)
}
