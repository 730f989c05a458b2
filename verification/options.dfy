/** An optional value: `None` is the failure of a partial operation. */
module Options {

  datatype Option<+T> = None | Some(value: T)
}
