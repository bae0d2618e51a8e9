/** The optional value, for state that may not exist yet. */
module Wrappers {

  datatype Option<+T> = None | Some(value: T)
}
