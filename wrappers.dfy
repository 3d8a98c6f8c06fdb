/** The optional-value datatype the model uses wherever the JavaScript code returns `null`. */
module Wrappers {

  datatype Option<+T> = None | Some(value: T)
}
