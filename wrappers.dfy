/** Option and Result: the absent value (JavaScript `undefined`, `NaN`, a
    parse that fails) and the exception a JavaScript call can throw. */
module Wrappers {

  datatype Option<+T> = None | Some(value: T)

  /** `Err` stands for a thrown JavaScript exception; nothing after it runs. */
  datatype Result<+T, +E> = Ok(value: T) | Err(error: E)
}
