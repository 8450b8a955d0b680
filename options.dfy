/** Python's `None` alongside a present value. */
module Options {

  datatype Option<+T> = None | Some(value: T)
}
