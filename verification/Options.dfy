/** The optional value used for C's NULL pointers and absent results. */
module Options {
  datatype Option<+T> = None | Some(value: T)
}
