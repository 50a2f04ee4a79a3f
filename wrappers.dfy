/** The optional value used for the source's nullable references (`Disc?`, an empty grid cell). */
module Wrappers {
  datatype Option<+T> = None | Some(value: T)
}
