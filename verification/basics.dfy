/** The optional value used wherever the source returns `undefined` or `null`. */
module Basics {

  datatype Option<+T> = None | Some(value: T) {

    /** The value inside `Some`, or `default` for `None`. */
    function GetOr(default: T): (r: T)
      ensures Some? ==> r == value
      ensures None? ==> r == default
    {
      match this
      case Some(v) => v
      case None => default
    }
  }

  /** JavaScript falsiness of an optional string: absent, `null` or empty. */
  predicate Falsy(v: Option<string>)
  {
    v.None? || v == Some("")
  }

  /** `value || null` on an optional string: the falsy values become `None`, the rest pass. */
  function OrNull(v: Option<string>): (r: Option<string>)
    ensures r.None? <==> Falsy(v)
    ensures r.Some? ==> r == v
  {
    if v == Some("") then None else v
  }
}
