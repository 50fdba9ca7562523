/** The optional value used wherever the C# code returns a nullable reference. */
module Wrappers {

  /** `None` stands for a C# `null`. */
  datatype Option<+T> = None | Some(value: T)
}
