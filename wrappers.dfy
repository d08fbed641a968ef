/** The optional value used for empty grid cells, the hold slot and the
    active piece before the first spawn. */
module Wrappers {
  datatype Option<+T> = None | Some(value: T)
}
