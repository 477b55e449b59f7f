/** Rust's `Option`, used for the debounce cell and for values that may be absent. */
module Options {
  datatype Option<+T> = None | Some(value: T)
}
