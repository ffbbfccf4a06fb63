/** The optional value used wherever the recogniser returns `None` or a value. */
module Options {

  datatype Option<T> = None | Some(value: T)
}
