/**
  JSON documents as the Python side sees them after `json.loads`: dicts,
  lists, strings, numbers, booleans and None. `json.loads` and `json.dumps`
  themselves stay abstract: members that need them take them as function
  parameters.
*/
module Json {
  import opened Wrappers

  datatype Json =
    | JNull                          // Python None
    | JBool(b: bool)
    | JInt(i: int)
    | JFloat(r: real)
    | JStr(s: string)
    | JArr(items: seq<Json>)
    | JObj(fields: map<string, Json>)

  /** The `{}` that the session runners start `har` with. */
  const EmptyObject: Json := JObj(map[])

  /** The Python exceptions that can arise on the sanitiser's path. */
  datatype PyException =
    | JsonDecodeError(msg: string)   // raised by json.loads
    | KeyError(key: string)          // a missing dict key
    | TypeError(msg: string)         // subscripting, iterating or deleting on the wrong type
    | UnicodeDecodeError             // bytes that are not UTF-8

  /** Python's name for the type of a value, as used in TypeError messages. */
  function TypeName(j: Json): string {
    match j
    case JNull => "NoneType"
    case JBool(_) => "bool"
    case JInt(_) => "int"
    case JFloat(_) => "float"
    case JStr(_) => "str"
    case JArr(_) => "list"
    case JObj(_) => "dict"
  }

  /** `str(e)`: a KeyError shows its key quoted, the others their message. */
  function Str(e: PyException): string {
    match e
    case JsonDecodeError(msg) => msg
    case KeyError(key) => "'" + key + "'"
    case TypeError(msg) => msg
    case UnicodeDecodeError => "'utf-8' codec can't decode the output"
  }

  /** Python truthiness: None, False, zero and empty containers are false. */
  predicate Truthy(j: Json)
    ensures !Truthy(j) <==> j == JNull || j == JBool(false) || j == JInt(0) || j == JFloat(0.0) || j == JStr("") || j == JArr([]) || j == JObj(map[])
  {
    match j
    case JNull => false
    case JBool(b) => b
    case JInt(i) => i != 0
    case JFloat(r) => r != 0.0
    case JStr(s) => s != ""
    case JArr(items) => items != []
    case JObj(fields) => fields != map[]
  }

  /** Whether `p` occurs in `s` as a substring: Python's `p in s` on strings. */
  predicate Occurs(p: string, s: string) {
    exists i :: 0 <= i <= |s| && OccursAt(p, s, i)
  }

  predicate OccursAt(p: string, s: string, i: int) {
    0 <= i && i + |p| <= |s| && s[i..i + |p|] == p
  }

  /** `j[key]` with a string key. */
  function Subscript(j: Json, key: string): (r: Result<Json, PyException>)
    ensures r.Success? <==> j.JObj? && key in j.fields
    ensures r.Success? ==> r.value in j.fields.Values
  {
    match j
    case JObj(fields) =>
      if key in fields then Success(fields[key]) else Failure(KeyError(key))
    case JArr(_) => Failure(TypeError("list indices must be integers or slices, not str"))
    case JStr(_) => Failure(TypeError("string indices must be integers"))
    case _ => Failure(TypeError("'" + TypeName(j) + "' object is not subscriptable"))
  }

  /** `key in j`: a key of a dict, an element of a list, a substring of a string. */
  function Contains(j: Json, key: string): (r: Result<bool, PyException>)
    ensures r.Success? <==> j.JObj? || j.JArr? || j.JStr?
    ensures j.JObj? ==> r == Success(key in j.fields)
  {
    match j
    case JObj(fields) => Success(key in fields)
    case JArr(items) => Success(JStr(key) in items)
    case JStr(s) => Success(Occurs(key, s))
    case _ => Failure(TypeError("argument of type '" + TypeName(j) + "' is not iterable"))
  }

  /** `del j[key]` with a string key, giving the changed value. */
  function DelItem(j: Json, key: string): (r: Result<Json, PyException>)
    ensures r.Success? <==> j.JObj? && key in j.fields
    ensures r.Success? ==> r.value == JObj(j.fields - {key})
  {
    match j
    case JObj(fields) =>
      if key in fields then Success(JObj(fields - {key})) else Failure(KeyError(key))
    case JArr(_) => Failure(TypeError("list indices must be integers or slices, not str"))
    case _ => Failure(TypeError("'" + TypeName(j) + "' object doesn't support item deletion"))
  }
}
