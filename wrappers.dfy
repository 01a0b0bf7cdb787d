/** A value that may be absent: an undefined request field or a SQL NULL. */
module Wrappers {

  datatype Option<+T> = None | Some(value: T)
}
