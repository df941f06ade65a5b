/** The one optional-value type the model needs. */
module Wrappers {

  datatype Option<+T> = None | Some(value: T)
}
