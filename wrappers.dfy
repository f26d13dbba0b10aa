/** The optional value the type store keeps in each substitution slot. */
module Wrappers {

  datatype Option<+T> = None | Some(value: T)
}
