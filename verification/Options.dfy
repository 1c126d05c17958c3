/** What the routines return that may have nothing to return: a null pointer, NOT_FOUND. */
module Options {

  datatype Option<T> = None | Some(value: T)
}
