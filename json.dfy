/** The JSON values that the metadata store returns, and the outcome of one HTTP request to it. */
module Json {
  import opened Wrappers

  datatype Value = Null | Bool(b: bool) | Int(i: int) | Str(s: string)

  /** A JSON object: one row of the store. */
  type Object = map<string, Value>

  /** Python truthiness of a JSON value. */
  predicate Truthy(v: Value) {
    match v
    case Null => false
    case Bool(b) => b
    case Int(i) => i != 0
    case Str(s) => s != ""
  }

  /** `NoResponse`: the request raised (network error, timeout). Otherwise the status code and the body
      `response.json()` decodes, as the objects that iterating over it yields: a list of objects, or
      nothing for an empty object or an empty string, which iterate exactly like `[]`. The body is `None`
      where using it as records raises: invalid JSON, a number or `null`, a non-empty object or string
      (its keys or characters have no `.get`), or a list holding anything but objects. */
  datatype HttpResponse = NoResponse | Response(status: int, body: Option<seq<Object>>)
}
