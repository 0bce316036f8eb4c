/** The optional value the model uses wherever the script has `None` or a call that may raise. */
module Options {
  datatype Option<+T> = None | Some(value: T)
}
