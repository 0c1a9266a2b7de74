/** Optional values, and the JavaScript reading of an optional string
    field as "truthy" (present and not the empty string). */
module Options {

  datatype Option<+T> = None | Some(value: T) {

    /** `this ?? default`: the value when present, otherwise the default. */
    function GetOr(default: T): T
    {
      match this
      case Some(v) => v
      case None => default
    }
  }

  /** A string field is truthy in JavaScript when it is present and not "". */
  predicate Truthy(o: Option<string>)
  {
    o.Some? && o.value != ""
  }

  /** `o || default` for an optional string field. */
  function StringOr(o: Option<string>, default: string): string
  {
    if Truthy(o) then o.value else default
  }
}
