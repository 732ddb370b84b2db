/** Small shared helpers: an optional value and a choice from a non-empty set. */
module Wrappers {

  datatype Option<T> = None | Some(value: T)

  /**
   * Some element of a non-empty set.  It stands for the iteration order of the
   * unordered containers of the source, which the model leaves unspecified.
   */
  method Pick<T>(s: set<T>) returns (x: T)
    requires s != {}
    ensures x in s
  {
    x :| x in s;
  }
}
