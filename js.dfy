/**
 * The JavaScript values the mobile client handles: what a server reply's
 * fields can hold, when a value counts as true in a condition, and how a
 * value is rendered inside a template literal or by `toString()`.
 * Numbers are integers here (ids, semesters, years).
 */
module Js {
  import opened Wrappers
  import Text

  datatype JsVal = Undefined | Null | Bool(b: bool) | Num(n: int) | Str(s: string)

  /** A decoded JSON object with flat fields, as axios hands it back. */
  type JsonObject = map<string, JsVal>

  /** `obj.field`: `undefined` when the field is absent. */
  function Get(o: JsonObject, field: string): (r: JsVal)
    ensures field !in o ==> r == Undefined
  {
    if field in o then o[field] else Undefined
  }

  /** JavaScript truthiness: `undefined`, `null`, `false`, `0` and `""` are false. */
  predicate Truthy(v: JsVal) {
    match v
    case Undefined => false
    case Null => false
    case Bool(b) => b
    case Num(n) => n != 0
    case Str(s) => s != ""
  }

  /** `${v}` inside a template literal. */
  function Render(v: JsVal): string {
    match v
    case Undefined => "undefined"
    case Null => "null"
    case Bool(b) => if b then "true" else "false"
    case Num(n) => Text.IntToString(n)
    case Str(s) => s
  }

  /** `v.toString()`: a TypeError (`None`) on `undefined` and `null`, the template rendering otherwise. */
  function ToStr(v: JsVal): (r: Option<string>)
    ensures r.None? <==> (v.Undefined? || v.Null?)
    ensures r.Some? ==> r.value == Render(v)
  {
    if v.Undefined? || v.Null? then None else Some(Render(v))
  }

  /** A truthy value never renders as the empty string. */
  lemma TruthyRendersNonEmpty(v: JsVal)
    requires Truthy(v)
    ensures Render(v) != ""
  {
    if v.Num? {
      if v.n < 0 {
        assert Render(v) == "-" + Text.NatToString(-v.n);
      }
    }
  }
}
