/** The optional value the services return where Python uses `None`. */
module Wrappers {

  datatype Option<T> = None | Some(value: T)
}
