/** Python's `None` as a value: a missing input or a score that could not be computed. */
module Optional {

  datatype Option<+T> = None | Some(value: T)
}
