/**
 * The JavaScript values the helpers and the response envelope handle, and
 * JavaScript truthiness over them.
 */
module Json {

  /**
   * A JSON-like JavaScript value. Numbers are modelled as integers: NaN,
   * fractions and negative zero are outside the model.
   */
  datatype Value =
    | Undefined
    | Null
    | Bool(b: bool)
    | Num(n: int)
    | Str(s: string)
    | Arr(items: seq<Value>)
    | Obj(fields: map<string, Value>)

  /** `typeof v === 'object'`: true for null, arrays and plain objects. */
  predicate IsObjectType(v: Value) {
    v.Null? || v.Arr? || v.Obj?
  }

  /** `Object.keys(v).length` for the values whose keys are counted. */
  function KeyCount(v: Value): nat {
    match v
    case Arr(items) => |items|
    case Obj(fields) => |fields|
    case Str(s) => |s|
    case _ => 0
  }

  /** JavaScript truthiness (`if (v)`): only the falsy scalars are false. */
  predicate Truthy(v: Value) {
    match v
    case Undefined => false
    case Null => false
    case Bool(b) => b
    case Num(n) => n != 0
    case Str(s) => s != ""
    case Arr(_) => true
    case Obj(_) => true
  }
}
