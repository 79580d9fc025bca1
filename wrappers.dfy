/** Small helper datatype used for values a lookup may not find. */
module Wrappers {

  /** A value that may be absent (an element `getElementById` did not find). */
  datatype Option<+T> = None | Some(value: T)
}
