/** The optional value used where the source returns `None` or a SQL NULL. */
module Wrappers {

  datatype Option<+T> = None | Some(value: T)
}
