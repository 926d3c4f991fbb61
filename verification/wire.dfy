/** Values as they cross the HTTP boundary: request-body fields that may be missing
    or null, and JavaScript truthiness over them. */
module Wire {

  /** A field that is missing or `null` (None) or holds a value (Some). */
  datatype Option<+T> = None | Some(value: T)

  /** A JSON scalar as it arrives in a request body. Arrays and objects are not modelled;
      JSON numbers are integers here. */
  datatype Value = Absent | Null | Bool(b: bool) | Number(n: int) | Str(s: string)

  /** JavaScript truthiness of a scalar. */
  predicate Truthy(v: Value)
  {
    match v
    case Absent => false
    case Null => false
    case Bool(b) => b
    case Number(n) => n != 0
    case Str(s) => s != ""
  }

  /** JavaScript truthiness of a string field that may be missing or null: only a
      non-empty string is truthy. */
  predicate Present(s: Option<string>)
  {
    s.Some? && s.value != ""
  }

  /** `s || null`: a falsy field (missing, null or "") becomes null, anything else is kept. */
  function OrNull(s: Option<string>): (r: Option<string>)
    ensures r.Some? <==> Present(s)
    ensures r.Some? ==> r == s
  {
    if Present(s) then s else None
  }

  /** `s || fallback` for a string field. */
  function OrElse(s: Option<string>, fallback: string): (r: string)
    ensures Present(s) ==> r == s.value
    ensures !Present(s) ==> r == fallback
  {
    if Present(s) then s.value else fallback
  }
}
