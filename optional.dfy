/** An optional value, for the source's `null` / `undefined` fields. */
module Optional {
  datatype Option<T> = None | Some(value: T)
}
