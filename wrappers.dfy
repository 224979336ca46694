/** The optional value of a JavaScript property read: `None` stands for
    `undefined` (the property is absent), `Some(v)` for a present value. */
module Wrappers {
  datatype Option<+T> = None | Some(value: T)
}
