/** Results that may be missing, and operations that may panic. */
module Wrappers {

  datatype Option<+T> = None | Some(value: T)

  /** What a call comes to: a run-time panic, or a result. */
  datatype Completion<+T> = Panic | Done(value: T)
}
