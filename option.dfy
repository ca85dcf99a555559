/** The `Option` value used where the program reads `None` or a value. */
module Optional {
  datatype Option<+T> = None | Some(value: T)
}
