/** Small helper datatypes shared by the other modules. */
module Wrappers {

  /** A value that may be missing (an SQL query that found no row). */
  datatype Option<+T> = None | Some(value: T)
}
