/** The optional value used wherever the program returns a null pointer, npos,
    std::nullopt or throws. */
module Wrappers {
  datatype Option<+T> = None | Some(value: T)
}
