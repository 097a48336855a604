/** Small shared datatypes. */
module Basics {

  /** A value that may be absent: a missing JSON field, a SQL NULL, a cancelled prompt. */
  datatype Option<+T> = None | Some(value: T)
}
