/** The usual carriers of an absent value. */
module Wrappers {
  datatype Option<+T> = None | Some(value: T)
}
