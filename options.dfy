/** The optional value used wherever the balancer returns `None` or reads a key that may be absent. */
module Options {
  datatype Option<+T> = None | Some(value: T)
}
