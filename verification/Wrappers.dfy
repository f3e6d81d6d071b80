/** The optional value used throughout. */
module Wrappers {
  datatype Option<+T> = None | Some(value: T)

  function IfSome<T>(o: Option<T>, default: T): T {
    match o case Some(x) => x case None => default
  }
}
