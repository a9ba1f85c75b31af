/** The optional value used by both the key model and the registry. */
module Wrappers {

  datatype Option<+T> = None | Some(value: T)
}
