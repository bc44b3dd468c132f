/** The optional value used for a signal that carries a payload only while its valid bit is set. */
module Options {
  datatype Option<+T> = None | Some(value: T)
}
