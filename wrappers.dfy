/** The optional value used wherever the Java code returns null or throws. */
module Wrappers {

  /** `None` stands for Java's `null` (or "no result"). */
  datatype Option<+T> = None | Some(value: T)
}
