/** The optional value used for the solver's `Option` returns. */
module Wrappers {

  datatype Option<+T> = None | Some(value: T)
}
