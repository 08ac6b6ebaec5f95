/** The optional value the Python code writes as `X | None`, and the outcome of
    an operation that may raise. */
module Options {
  datatype Option<+T> = None | Some(value: T)
}
