/** The optional value used where PHP returns a value or `false`/`null`. */
module Wrappers {

  datatype Option<+T> = None | Some(value: T)
}
