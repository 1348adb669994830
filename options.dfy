/** The optional-value datatype used throughout the model (Rust's `Option`). */
module Options {

  datatype Option<+T> = None | Some(value: T)

}
