/** The tagged optional result that replaces the C `NULL` sentinel. */
module Wrappers {

  /** `None` is what the C code signals by returning `NULL`. */
  datatype Option<+T> = None | Some(value: T)
}
