/** An optional value, for the source's `undefined`, `null` and missing-key results. */
module Options {
  datatype Option<+T> = None | Some(value: T) {
    function GetOr(default: T): T {
      if Some? then value else default
    }
  }
}
