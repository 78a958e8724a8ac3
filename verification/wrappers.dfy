/** The conventional Some/None datatype, for the optional `lastPostDate`. */
module Wrappers {
  datatype Option<+T> = None | Some(value: T)
}
