/** The optional-value type shared by the lexer modules. */
module Wrappers {
  datatype Option<+T> = None | Some(value: T)
}
