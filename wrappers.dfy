/** The Option datatype the model uses for "may be missing" (a Java null). */
module Wrappers {

  datatype Option<+T> = None | Some(value: T)
}
