/** The nullable values of the modelled C# code: a reference or nullable string is an Option. */
module Wrappers {

  datatype Option<+T> = None | Some(value: T)
}
