/** What a C++ null pointer, `npos` or an exception stands for: a value that may be missing. */
module Options {

  datatype Option<+T> = None | Some(value: T)
}
