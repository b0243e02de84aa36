/** Pointers that may be NULL and files that may be missing. */
module Options {
  datatype Option<T> = None | Some(value: T)
}
