/** The optional value a request field or a table lookup may produce. */
module Wrappers {

  /** `None` stands for what `data.get` yields as Python's `None`: a key the request body
      did not carry, or one it carried as JSON `null`; either is bound as SQL's NULL.
      `Some(v)` stands for a value that is present. */
  datatype Option<+T> = None | Some(value: T)
}
