/** The value type used where the server's code signals "nothing". */
module Options {
  datatype Option<+T> = None | Some(value: T)
}
