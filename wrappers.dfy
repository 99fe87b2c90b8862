/** The optional result of the pruning step: `None` when there was nothing to prune. */
module Wrappers {
  datatype Option<+T> = None | Some(value: T)
}
