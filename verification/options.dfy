/** The optional value used for decoders that can fail and for C pointers that may be NULL. */
module Options {

  datatype Option<+T> = None | Some(value: T)
}
