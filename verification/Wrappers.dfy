/** What the models share: Option, whose None stands for "this step is not enabled", and bytes. */
module Wrappers {
  datatype Option<+T> = None | Some(value: T)

  newtype byte = x: int | 0 <= x < 256
}
