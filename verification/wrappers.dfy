/** The optional value used for calls into code outside the model that may fail. */
module Wrappers {

  datatype Option<+T> = None | Some(value: T)
}
