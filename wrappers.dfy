/** An optional value: the model's stand-in for Go's nil pointer and for
    functions whose second result reports failure. */
module Wrappers {

  datatype Option<+T> = None | Some(value: T)

}
