/** Values that may be missing, and the `get(object, path, default)` lookup the handler uses for them. */
module Defaults {

  /** A property that is either present or undefined. */
  datatype Option<+T> = None | Some(value: T)

  /** lodash `get` with a default: the default replaces an undefined value only, never a present one. */
  function GetOr<T>(o: Option<T>, default: T): T
  {
    match o
    case Some(v) => v
    case None => default
  }
}
