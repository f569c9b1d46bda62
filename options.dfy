/** The optional value used wherever the source yields `null`. */
module Options {

  datatype Option<+T> = None | Some(value: T)
}
