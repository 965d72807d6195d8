/** The optional value used wherever the C code has a nullable pointer. */
module Options {
  datatype Option<+T> = None | Some(value: T)
}
