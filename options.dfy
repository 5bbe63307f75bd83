/** The optional value used wherever the source returns Rust's `Option`. */
module Options {

  datatype Option<+T> = None | Some(value: T)
}
