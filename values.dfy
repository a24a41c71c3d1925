/** The loosely typed Python values that flow through the pipeline: the
    slots of a recognition-service field object, the `value` of a
    FieldResult, the entries of diagnostic dictionaries. */
module Values {

  /** A Python value as far as the pipeline inspects it.
      - VFloat carries the float's `repr` text; no arithmetic is modelled.
      - VDate is a `datetime.date` (the typed `value_date` slot).
      - VDict is a `dict` with string keys.
      - VObject is any other object, seen only through its attributes
        (`getattr(obj, name, None)`), such as the service's CurrencyValue. */
  datatype Value =
    | VNone
    | VBool(b: bool)
    | VInt(i: int)
    | VFloat(repr: string)
    | VStr(s: string)
    | VDate(year: nat, month: nat, day: nat)
    | VDict(entries: map<string, Value>)
    | VObject(attrs: map<string, Value>)

  /** Python truthiness (`bool(v)`). Objects without `__bool__`/`__len__`
      are truthy; a float is falsy exactly when it is zero, whose repr is
      "0.0" or "-0.0". */
  predicate Truthy(v: Value) {
    match v
    case VNone => false
    case VBool(b) => b
    case VInt(i) => i != 0
    case VFloat(r) => r != "0.0" && r != "-0.0"
    case VStr(s) => s != ""
    case VDate(_, _, _) => true
    case VDict(m) => |m| > 0
    case VObject(_) => true
  }

  /** `getattr(v, name, None)`: only objects have attributes here; a dict's
      keys are not attributes. */
  function GetAttr(v: Value, name: string): Value {
    if v.VObject? && name in v.attrs then v.attrs[name] else VNone
  }

  /** `d.get(key)` on a dict: None when the key is absent. */
  function DictGet(d: map<string, Value>, key: string): Value {
    if key in d then d[key] else VNone
  }

  /** Python's `a or b`: the first operand when it is truthy, else the second. */
  function Or(a: Value, b: Value): Value {
    if Truthy(a) then a else b
  }
}
