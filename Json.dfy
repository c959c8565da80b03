/** The JavaScript values the client code handles: JSON documents received
    from the server plus `NaN`, which `Number()` can produce. `undefined` is
    `None` of an `Option<Value>`. */
module Json {
  import opened Common

  datatype Value =
    | Null
    | Bool(b: bool)
    | Num(x: real)
    | NaN
    | Str(s: string)
    | Arr(items: seq<Value>)
    | Obj(fields: map<string, Value>)

  /** `v?.[key]`: `undefined` when `v` is undefined, not an object or lacks the key. */
  function Get(v: Option<Value>, key: string): (r: Option<Value>)
    ensures r.Some? <==> v.Some? && v.value.Obj? && key in v.value.fields
  {
    if v.Some? && v.value.Obj? && key in v.value.fields then Some(v.value.fields[key]) else None
  }

  /** The fields an object spread `{...v}` copies (only objects are modelled). */
  function Fields(v: Option<Value>): map<string, Value> {
    if v.Some? && v.value.Obj? then v.value.fields else map[]
  }

  /** JavaScript truthiness: undefined, null, false, 0, NaN and "" are falsy. */
  predicate IsTruthy(v: Option<Value>) {
    match v
    case None => false
    case Some(x) =>
      match x
      case Null => false
      case Bool(b) => b
      case Num(n) => n != 0.0
      case NaN => false
      case Str(s) => s != ""
      case Arr(_) => true
      case Obj(_) => true
  }

  /** `a || b` */
  function Or(a: Option<Value>, b: Option<Value>): (r: Option<Value>)
    ensures IsTruthy(a) ==> r == a
    ensures !IsTruthy(a) ==> r == b
  {
    if IsTruthy(a) then a else b
  }

  /** A string field read as `x || ''`. */
  function StrOr(v: Option<Value>, d: string): Value {
    Or(v, Some(Str(d))).value
  }

  /** `typeof v === 'number'` (true of NaN as well). */
  predicate IsNumber(v: Option<Value>) {
    v.Some? && (v.value.Num? || v.value.NaN?)
  }
}
