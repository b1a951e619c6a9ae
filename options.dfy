/** The optional value used wherever the source returns a falsy "nothing found" marker. */
module Options {

  datatype Option<+T> = None | Some(value: T)
}
