/** Values that may be absent. */
module Options {
  datatype Option<+T> = None | Some(value: T)

  function OrElse<T>(o: Option<T>, otherwise: T): T {
    if o.Some? then o.value else otherwise
  }
}
