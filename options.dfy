/** The optional value used wherever the source works with `None`. */
module Options {

  datatype Option<+T> = None | Some(value: T)

}
