/** The usual optional value: used for a C pointer that may be NULL and for a
    table lookup that may find nothing. */
module Options {
  datatype Option<T> = None | Some(value: T)
}
