/** The optional value used for a text input that may fail to parse and for a
    field that may be absent from a stored record. */
module Wrappers {

  datatype Option<+T> = None | Some(value: T)
}
