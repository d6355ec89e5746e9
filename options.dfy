/** The optional value used for JavaScript's null / undefined fields. */
module Options {

  datatype Option<+T> = None | Some(value: T)

  /** JavaScript truthiness of an optional string: undefined, null and "" are falsy. */
  function Truthy(s: Option<string>): (b: bool)
    ensures b <==> s != None && s != Some("")
  {
    s.Some? && s.value != ""
  }
}
