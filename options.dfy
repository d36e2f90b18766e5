/** The optional value used across the model wherever Python uses `None`. */
module Options {

  datatype Option<+T> = None | Some(value: T)

}
