/** The optional values the model uses for environment variables that may be unset
    and for `print(entry=None)`. */
module Wrappers {
  datatype Option<+T> = None | Some(value: T)
}
