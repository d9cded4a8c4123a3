/** The optional value the scrapers use wherever a lookup may find nothing:
    a DOM label that is absent, a fetch that failed, a date that did not parse. */
module Wrappers {

  datatype Option<+T> = None | Some(value: T) {

    /** The wrapped value, or `default` when there is none. */
    function GetOr(default: T): T {
      match this
      case Some(v) => v
      case None => default
    }
  }
}
