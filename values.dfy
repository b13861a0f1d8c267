/** PHP's `mixed` values as the placeholder engine sees them, with the
    conversions and tests (`(string)`, `empty`, `isset`, `??`) it relies on.
    Floats and objects with magic methods are not part of this model. */
module Values {

  /** A PHP value. An object is its public property table. */
  datatype Value =
    | VNull
    | VBool(b: bool)
    | VInt(i: int)
    | VStr(s: string)
    | VArr(elems: seq<Value>)
    | VObj(fields: map<string, Value>)

  /** The outcome of calling user code that may throw an `\Exception`. */
  datatype Outcome<T> = Done(value: T) | Threw

  datatype Option<T> = None | Some(value: T)

  function DigitChar(d: nat): (c: char)
    requires d < 10
    ensures '0' <= c <= '9'
    ensures c == '0' <==> d == 0
  {
    "0123456789"[d]
  }

  /** Decimal rendering of a natural number, most significant digit first. */
  function NatToString(n: nat): (r: string)
    ensures |r| > 0
    ensures forall i :: 0 <= i < |r| ==> '0' <= r[i] <= '9'
    ensures n < 10 <==> |r| == 1
    ensures r == "0" <==> n == 0
  {
    if n < 10 then [DigitChar(n)] else NatToString(n / 10) + [DigitChar(n % 10)]
  }

  /** PHP's int-to-string conversion. */
  function IntToString(i: int): (r: string)
    ensures |r| > 0
    ensures i < 0 <==> r[0] == '-'
    ensures r == "0" <==> i == 0
  {
    if i < 0 then "-" + NatToString(-i) else NatToString(i)
  }

  /** PHP's `(string)` cast. Casting an object without `__toString` throws an
      uncaught `Error` in PHP; the model renders it as the empty string. A
      string is its own cast, and the cast is empty to PHP exactly when the
      value is an empty scalar (the empty array casts to `Array`) or an
      object. */
  function ToStr(v: Value): (r: string)
    ensures v.VStr? ==> r == v.s
    ensures IsEmpty(VStr(r)) <==> (IsEmpty(v) && !v.VArr?) || v.VObj?
  {
    match v
    case VNull => ""
    case VBool(b) => if b then "1" else ""
    case VInt(i) => IntToString(i)
    case VStr(s) => s
    case VArr(_) => "Array"
    case VObj(_) => ""
  }

  /** PHP's `empty()`: null, false, 0, "", "0" and the empty array. */
  predicate IsEmpty(v: Value)
    ensures IsEmpty(v) <==> v in {VNull, VBool(false), VInt(0), VStr(""), VStr("0"), VArr([])}
  {
    match v
    case VNull => true
    case VBool(b) => !b
    case VInt(i) => i == 0
    case VStr(s) => s == "" || s == "0"
    case VArr(a) => a == []
    case VObj(_) => false
  }

  /** `$v->{$name}` read without a warning: the property, or null when `v` is
      not an object or has no such property. */
  function Prop(v: Value, name: string): (r: Value)
    ensures r != VNull ==> v.VObj? && name in v.fields && r == v.fields[name]
  {
    if v.VObj? && name in v.fields then v.fields[name] else VNull
  }

  /** `isset($v->{$name})`: the property exists and is not null. */
  predicate Isset(v: Value, name: string)
    ensures Isset(v, name) <==> v.VObj? && name in v.fields && v.fields[name] != VNull
  {
    Prop(v, name) != VNull
  }

  /** PHP's null-coalescing operator `a ?? b`. */
  function Coalesce(a: Value, b: Value): (r: Value)
    ensures a != VNull ==> r == a
    ensures a == VNull ==> r == b
  {
    if a != VNull then a else b
  }

  /** `is_string($v) || is_numeric($v)` for the values of this model: every
      string passes, and so does every integer. */
  predicate IsStringOrNumeric(v: Value)
  {
    v.VStr? || v.VInt?
  }
}
