/** Small helper datatypes shared by the model. */
module Wrappers {

  /** A value that may be absent: `null | T` in the component's state. */
  datatype Option<+T> = None | Some(value: T)
}
