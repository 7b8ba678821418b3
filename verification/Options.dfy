/** The one optional type of the project. */
module Options {
  datatype Option<T> = None | Some(value: T)
}
