/** Small value wrappers shared by the model. */
module Wrappers {

  /** A value that may be absent; stands in for Go's nil results. */
  datatype Option<+T> = None | Some(value: T)
}
