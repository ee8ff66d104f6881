/** Small helper datatypes shared by the other modules. */
module Wrappers {

  /** An optional value: `None` where the program has nothing to report. */
  datatype Option<T> = None | Some(value: T)
}
