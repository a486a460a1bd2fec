/** An optional value; used for the open upper limit of the top tax bracket. */
module Options {

  datatype Option<+T> = None | Some(value: T)
}
