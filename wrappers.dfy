/** The usual optional-value wrapper, shared by all modules. */
module Wrappers {

  datatype Option<+T> = None | Some(value: T)
}
