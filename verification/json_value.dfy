/**
 * The JSON values a model reply decodes to, with the two Python idioms the
 * import code applies to them: truthiness and `dict.get` with a default.
 */
module JsonValue {
  datatype Json =
    | Null
    | Bool(b: bool)
    | Num(n: real)
    | Str(s: string)
    | Arr(items: seq<Json>)
    | Obj(fields: map<string, Json>)

  /** Python truthiness: `None`, `False`, zero and empty containers are false. */
  predicate Truthy(j: Json)
  {
    match j
    case Null => false
    case Bool(b) => b
    case Num(n) => n != 0.0
    case Str(s) => |s| > 0
    case Arr(items) => |items| > 0
    case Obj(fields) => |fields| > 0
  }

  /** `obj.get(key, default)`: the stored value when the key is present, whatever it is. */
  function Get(j: Json, key: string, default: Json): (r: Json)
    requires j.Obj?
  {
    if key in j.fields then j.fields[key] else default
  }
}
