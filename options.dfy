/** The optional value used wherever the source returns or accepts None. */
module Options {

  datatype Option<+T> = None | Some(value: T)
}
