// An optional value, for the C functions that signal "no result" with a
// sentinel (-1, NULL or an error exit).

module Optional {
  datatype Option<T> = None | Some(value: T)
}
