/** Results that may be missing; `None` also stands for the errors that are thrown. */
module Options {
  datatype Option<+T> = None | Some(value: T)
}
