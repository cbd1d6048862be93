/** The usual Some/None wrapper, used for lookups that may miss. */
module Optional {

  datatype Option<+T> = None | Some(value: T)
}
