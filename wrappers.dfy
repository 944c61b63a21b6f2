/** The optional value used throughout the model where Python returns a value or `None`. */
module Wrappers {

  datatype Option<T> = None | Some(value: T)
}
