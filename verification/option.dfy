/** The optional value used wherever the renderer returns `Option<T>` or a
    `bool` paired with an out-parameter that is only written on success. */
module Options {

  datatype Option<+T> = None | Some(value: T) {

    /** The value, or `default` when there is none (Rust's `unwrap_or`). */
    function UnwrapOr(default: T): T {
      match this
      case Some(v) => v
      case None => default
    }
  }
}
