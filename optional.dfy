/** A value that a data provider may fail to supply (Python's `None`). */
module Optional {
  datatype Option<+T> = None | Some(value: T)
}
