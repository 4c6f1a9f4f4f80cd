/** Small shared datatypes. */
module Base {

  /** A value that may be absent; stands for JavaScript's `null`. */
  datatype Option<T> = None | Some(value: T)
}
