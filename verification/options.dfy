/** The "no record" result of a parse: a value or nothing. */
module Options {

  datatype Option<+T> = None | Some(value: T)
}
