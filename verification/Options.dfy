/** Values that may be absent. */
module Options {
  datatype Option<+T> = None | Some(value: T) {
    function Or(default: Option<T>): Option<T> {
      if Some? then this else default
    }

    function GetOr(default: T): T {
      if Some? then value else default
    }
  }
}
