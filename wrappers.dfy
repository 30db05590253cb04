/** The optional values of the source: an omitted argument, `null`, or a value. */
module Wrappers {

  datatype Option<+T> = None | Some(value: T)
}
