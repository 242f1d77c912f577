/** The conventional optional value, used where the program has NULL or -1. */
module Options {
  datatype Option<+T> = None | Some(value: T)
}
