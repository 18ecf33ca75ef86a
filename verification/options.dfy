/** An optional value: the model's stand-in for a DOM lookup that may find nothing. */
module Options {

  datatype Option<+T> = None | Some(value: T)
}
