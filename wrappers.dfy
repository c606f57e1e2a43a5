/** Rust's `Option`, used for optional tags, attribute lookups and parse results. */
module Wrappers {

  datatype Option<+T> = None | Some(value: T)
}
