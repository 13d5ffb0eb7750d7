/** Small helper datatypes shared by the model. */
module Wrappers {

  /** An optional value: `None` stands for a null actor reference. */
  datatype Option<+T> = None | Some(value: T)
}
