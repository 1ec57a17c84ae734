/** A value that may be missing: the model's stand-in for a NaN cell of a numeric column. */
module Options {

  datatype Option<+T> = None | Some(value: T)
}
