/** The optional value of the source's nullable references (`null`, `undefined`). */
module Wrappers {

  datatype Option<+T> = None | Some(value: T)
}
