/** Small shared datatypes. */
module Common {

  /** A value that may be absent: JavaScript's `null` for a field that is not yet set. */
  datatype Option<T> = None | Some(value: T)
}
