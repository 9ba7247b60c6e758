module Options {

  /** A value that may be absent: a missing row, a failed call, nothing fetched yet. */
  datatype Option<T> = None | Some(value: T)
}
