/** An optional value: a setting that may be absent, or a search that may
    find nothing. */
module Options {
  datatype Option<T> = None | Some(value: T)
}
