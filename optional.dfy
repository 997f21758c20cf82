/** A value that may be absent, and JavaScript's truthiness of an
    optional string (`undefined` and `""` are both falsy). */
module Optional {

  datatype Option<+T> = None | Some(value: T)

  /** `if (x)` / `x ? … : …` / `x || …` on a field that may be missing. */
  predicate Truthy(x: Option<string>) {
    x.Some? && x.value != ""
  }

  /** `x || fallback`: the value when it is truthy, otherwise the fallback. */
  function OrElse(x: Option<string>, fallback: string): (r: string)
    ensures r == fallback || (x.Some? && r == x.value)
    ensures Truthy(x) <==> (x.Some? && r == x.value && r != "")
    ensures fallback != "" ==> r != ""
  {
    if Truthy(x) then x.value else fallback
  }
}
