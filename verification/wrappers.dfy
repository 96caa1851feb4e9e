/** Rust's `Option`, as the model uses it. */
module Wrappers {

  datatype Option<T> = None | Some(value: T) {

    /** `Option::unwrap_or`: the held value, or `fallback` when there is none. */
    function UnwrapOr(fallback: T): (v: T)
      ensures Some? ==> v == value
      ensures None? ==> v == fallback
    {
      if Some? then value else fallback
    }
  }
}
