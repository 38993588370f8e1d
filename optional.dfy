/** A value that may be absent: the TypeScript `T | null`. */
module Optional {
  datatype Option<T> = None | Some(value: T)
}
