// The two shapes Go's `value, ok` and `value, err` results take here.
module Wrappers {
  datatype Option<+T> = None | Some(value: T)
}
