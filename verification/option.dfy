/** The optional value the model uses where the program can fail without saying why. */
module Options {
  datatype Option<T> = None | Some(value: T)
}
