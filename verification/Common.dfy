/** What several modules share: optional values, and the error code of a lock that is taken. */
module Common {
  datatype Option<+T> = None | Some(value: T)

  const EBUSY := 16
}
