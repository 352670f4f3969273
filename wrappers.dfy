/** Small helper datatypes shared by the other modules. */
module Wrappers {

  /** A value that may be absent (a NULL pointer, a property that was not read). */
  datatype Option<+T> = None | Some(value: T)
}
