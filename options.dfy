/** The optional value used wherever the source returns a null pointer or a null XML node. */
module Options {
  datatype Option<T> = None | Some(value: T)
}
