/** Small result types shared by the model. */
module Wrappers {

  /** A value that may be absent: Java's nullable references. */
  datatype Option<+T> = None | Some(value: T)

  /** The outcome of a step that may throw: every Java exception is collapsed
      into the single `Failed` case, because the comparator catches them all alike. */
  datatype Outcome<+T> = Ok(value: T) | Failed
}
