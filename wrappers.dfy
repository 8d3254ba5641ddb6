/** The optional-value datatype used by searches in the model. */
module Wrappers {
  datatype Option<+T> = None | Some(value: T)
}
