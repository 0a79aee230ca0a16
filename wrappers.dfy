/** The optional value used wherever the service returns "a value or None". */
module Wrappers {

  datatype Option<+T> = None | Some(value: T)

}
