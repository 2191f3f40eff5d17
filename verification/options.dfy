/** The usual Some/None datatype, used where the script's value may be absent. */
module Options {

  datatype Option<+T> = None | Some(value: T)
}
