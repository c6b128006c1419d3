/** An optional value: a request field or a document reference that may be absent. */
module Options {
  datatype Option<+T> = None | Some(value: T)
}
