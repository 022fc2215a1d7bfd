/** An optional value: the `Option` that `Connection::accept` returns and that a checked add yields. */
module Options {
  datatype Option<+T> = None | Some(value: T)
}
