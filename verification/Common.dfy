/** Optional values, and picking from sets. */
module Common {

  datatype Option<+T> = None | Some(value: T)

  /** The first element of a set in whatever order it is kept in, which can be any of them. */
  method AnyOf<T>(s: set<T>) returns (x: T)
    requires s != {}
    ensures x in s
  {
    x :| x in s;
  }
}
