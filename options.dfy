/** Rust's `Option`, used for `ListState::selected`, `Path::parent` and metadata reads. */
module Options {
  datatype Option<+T> = None | Some(value: T)
}
