/** The conventional Some/None datatype, used where the source returns a value or None. */
module Optional {
  datatype Option<+T> = None | Some(value: T)
}
