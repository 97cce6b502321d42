/** Rust's standard `Option`. */
module Optional {
  datatype Option<T> = None | Some(value: T)
}
