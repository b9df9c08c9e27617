/** JavaScript values as the screens see them: the result of `response.json()`,
    property access on it, truthiness, `||`, and one HTTP exchange made by `fetch`. */
module JsValues {

  datatype Option<+T> = None | Some(value: T)

  /** A JavaScript value that can come out of `JSON.parse`, plus `undefined`,
      which is what reading a missing property gives. */
  datatype Json =
    | Undefined
    | Null
    | Bool(b: bool)
    | Num(n: real)
    | Str(s: string)
    | Arr(items: seq<Json>)
    | Obj(fields: map<string, Json>)

  /** ToBoolean (section 7.1.2 of ECMA-262) on the values above. */
  predicate Truthy(v: Json)
  {
    match v
    case Undefined => false
    case Null => false
    case Bool(b) => b
    case Num(n) => n != 0.0
    case Str(s) => s != ""
    case Arr(_) => true
    case Obj(_) => true
  }

  /** `null` or `undefined`: the values whose properties cannot be read. */
  predicate IsNullish(v: Json)
  {
    v.Null? || v.Undefined?
  }

  /** `v.key`: None when the access throws a TypeError (`v` is null or undefined),
      otherwise the property's value, `undefined` when it is absent. Only own
      properties are looked at: the keys read by the screens (`status`, `error`,
      `message`, `hayalet_detected`) are not inherited by any JSON value. */
  function Member(v: Json, key: string): (r: Option<Json>)
    ensures r.None? <==> IsNullish(v)
    ensures r.Some? && v.Obj? ==> r.value == (if key in v.fields then v.fields[key] else Undefined)
    ensures r.Some? && !v.Obj? ==> r.value == Undefined
  {
    match v
    case Undefined => None
    case Null => None
    case Obj(fields) => Some(if key in fields then fields[key] else Undefined)
    case _ => Some(Undefined)
  }

  /** `a || b`: one of the two operands, truthy exactly when either is. */
  function Or(a: Json, b: Json): (r: Json)
    ensures r == a || r == b
    ensures Truthy(r) <==> Truthy(a) || Truthy(b)
    ensures Truthy(a) ==> r == a
    ensures !Truthy(a) ==> r == b
  {
    if Truthy(a) then a else b
  }

  /** What one `fetch` followed (where the handler does so) by `response.json()`
      produces: either the promise rejects (network failure), or a response arrives
      with its status code and its body, which is None when it is not valid JSON. */
  datatype HttpReply =
    | Unreachable
    | Reply(status: int, body: Option<Json>)

  /** `response.ok` of the Fetch standard: the status is in the range 200 to 299. */
  predicate IsOk(status: int)
  {
    200 <= status <= 299
  }

  /** The value `await response.json()` yields, or None when that line throws
      (the request failed or the body is not JSON). */
  function ParsedBody(reply: HttpReply): (r: Option<Json>)
    ensures reply.Unreachable? ==> r.None?
    ensures reply.Reply? ==> r == reply.body
  {
    match reply
    case Unreachable => None
    case Reply(_, body) => body
  }

  /** A call to `Alert.alert(title, message)`; `message` is whatever value the
      handler passes, `Undefined` when it passes only a title. */
  datatype Alert = Alert(title: string, message: Json)
}
