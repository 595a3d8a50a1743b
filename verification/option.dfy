/** Optional values: the source's use of Python's `None` as "no value". */
module Options {

  /** Either no value or some value of type T. */
  datatype Option<+T> = None | Some(value: T)
}
