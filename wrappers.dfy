/** Rust's `Option`, used for `handle_event`'s result and for optional tokens. */
module Wrappers {

  datatype Option<+T> = None | Some(value: T)

}
