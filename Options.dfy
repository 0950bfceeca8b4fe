/** A value that may be absent: JavaScript's `null` / `undefined` for a value type. */
module Options {

  datatype Option<+T> = None | Some(value: T)
}
