/** The usual optional-value wrapper, used for parsers that may fail. */
module Options {
  datatype Option<T> = None | Some(value: T)
}
