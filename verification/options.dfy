/** Optional values: `None` stands for the NULL pointer a C routine returns. */
module Options {

  datatype Option<+T> = None | Some(value: T)
}
