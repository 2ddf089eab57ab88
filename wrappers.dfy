/** The optional value used for the C# `null` reference throughout the model. */
module Wrappers {
  /** `None` stands for a C# `null` (or an absent JSON field), `Some(v)` for a present value. */
  datatype Option<+T> = None | Some(value: T)
}
