/** The optional value used wherever the Rust code returns `Option<T>`. */
module Optional {

  datatype Option<+T> = None | Some(value: T)
}
