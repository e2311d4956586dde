/** The Some/None wrapper used wherever the program gets back `null` or `undefined`. */
module Optional {

  datatype Option<+T> = None | Some(value: T)
}
