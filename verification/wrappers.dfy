/** The absent/present result used wherever the C# code returns a nullable reference. */
module Wrappers {

  /** `None` stands for the `null` the source returns or receives. */
  datatype Option<+T> = None | Some(value: T)
}
