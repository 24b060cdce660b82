/** A value that may be missing, the `Option` of the source, and a call that may panic. */
module Options {

  datatype Option<+T> = None | Some(value: T)

  datatype Outcome<+T> = Returned(value: T) | Panicked
}
