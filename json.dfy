/**
 * The request body as `request.json()` hands it to the route: either the text
 * was not JSON at all, or it is one JSON value.
 */
module Json {

  /** A JSON value. Numbers carry no payload: their value plays no part in the route. */
  datatype Value =
    | Null
    | Bool(b: bool)
    | Num
    | Str(s: string)
    | Arr(items: seq<Value>)
    | Obj(members: map<string, Value>)

  /** The body of a POST: text that is not JSON makes `request.json()` throw. */
  datatype Body = Unparseable | Parsed(value: Value)

  /**
   * The type name zod (version 3) reports for a value in its "Expected ..., received ..."
   * messages. This is a detail of the validation library, not of the route; the route
   * only passes such a message on when the body is not an object.
   */
  function TypeName(v: Value): (r: string)
    ensures r != ""
    ensures r == "object" <==> v.Obj?
    ensures r == "string" <==> v.Str?
  {
    match v
    case Null => "null"
    case Bool(_) => "boolean"
    case Num => "number"
    case Str(_) => "string"
    case Arr(_) => "array"
    case Obj(_) => "object"
  }
}
