/** An optional value: the chosen error message of a field, the position of a character. */
module Options {

  datatype Option<+T> = None | Some(value: T)
}
