/** Values of the JavaScript host that the checklist logic inspects. */
module JsValues {

  datatype Option<+T> = None | Some(value: T)

  /** The result of applying JavaScript's `Number(...)` to a stored value:
      either a finite number or one of NaN / +Infinity / -Infinity. */
  datatype JsNumber = Finite(x: real) | NonFinite

  /** A value produced by `JSON.parse`: JSON has no NaN or Infinity, so a number is a real. */
  datatype Json =
    | JNull
    | JBool(b: bool)
    | JNum(n: real)
    | JStr(s: string)
    | JArr(elems: seq<Json>)
    | JObj(fields: map<string, Json>)

  /** JavaScript truthiness (`!!v`) of a JSON value. */
  predicate Truthy(v: Json) {
    match v
    case JNull => false
    case JBool(b) => b
    case JNum(n) => n != 0.0
    case JStr(s) => s != ""
    case JArr(_) => true
    case JObj(_) => true
  }

  /** `typeof v === "object"` in JavaScript, which holds for null, arrays and objects. */
  predicate IsObjectType(v: Json) {
    v.JNull? || v.JArr? || v.JObj?
  }
}
