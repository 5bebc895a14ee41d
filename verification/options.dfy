/** An optional value: the model's stand-in for a JavaScript field or argument
    that may be `undefined`, `null` or the empty string. */
module Options {

  datatype Option<+T> = None | Some(value: T) {

    /** The value, or `default` when absent: JavaScript's `x || default`
        for a field whose present values are never falsy. */
    function GetOr(default: T): (r: T)
      ensures Some? ==> r == value
      ensures None? ==> r == default
    {
      if Some? then value else default
    }
  }
}
