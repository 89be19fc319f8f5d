/** The optional value used where the client's C# code returns or accepts `null`. */
module Wrappers {

  datatype Option<+T> = None | Some(value: T)
}
