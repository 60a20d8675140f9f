/** The Some/None value used for Python's `None` returns and for failed lookups. */
module Optional {

  datatype Option<+T> = None | Some(value: T)

}
