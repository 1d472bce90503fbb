/** A value that may be missing: Java's `null`. */
module Optional {
  datatype Option<T> = None | Some(value: T)
}
