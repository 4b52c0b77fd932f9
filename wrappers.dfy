/** The optional value returned by the file-name parser. */
module Wrappers {
  datatype Option<+T> = None | Some(value: T)
}
