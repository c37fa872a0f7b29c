/** Java's nullable references, for library results that may be `None`. */
module Options {

  datatype Option<+T> = None | Some(value: T)
}
