/** The nullable values of the data model (`T | null` fields) as an Option. */
module Wrappers {

  datatype Option<+T> = None | Some(value: T)
}
