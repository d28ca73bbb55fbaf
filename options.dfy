/** The optional result the tree returns for a missing key or an out-of-range rank. */
module Options {

  datatype Option<T> = None | Some(value: T)
}
