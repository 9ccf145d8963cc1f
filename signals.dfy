/** Small value types shared by the model of the line swimmer. */
module Signals {

  /** A link that may be missing: an unset `prev`/`next` field of a node. */
  datatype Option<T> = None | Some(value: T)

  /**
   * The result of one step of a component of index.ts that signals an event
   * through a callback: `next` is the new value and `fired` says whether the
   * callback would have been invoked during the step.
   */
  datatype Stepped<T> = Stepped(next: T, fired: bool)
}
