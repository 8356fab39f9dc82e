/** The optional value used for operations of the catalogue that can fail
    (Python's `None` return and a `ValueError` caught by the caller). */
module Wrappers {

  datatype Option<+T> = None | Some(value: T)

}
