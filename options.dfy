/** The optional value used for the Python values that may be absent (`None`). */
module Options {

  datatype Option<+T> = None | Some(value: T)

}
