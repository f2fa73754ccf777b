/** An optional value; `None` is also what stands for an exception where a function may raise one. */
module Options {
  datatype Option<+T> = None | Some(value: T)
}
