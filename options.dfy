/** An optional value: a regular-expression match that may fail, a bound
    that may be omitted. */
module Options {
  datatype Option<T> = None | Some(value: T)
}
