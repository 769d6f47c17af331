/** The optional-value datatype used for results that may be absent. */
module Wrappers {

  /** `None` stands for "no statistics", `Some(v)` carries a computed value. */
  datatype Option<+T> = None | Some(value: T)
}
