/** JavaScript values as they reach the request handlers (request bodies and
    database columns), with JavaScript's truthiness and `String()` coercion. */
module JsValues {

  datatype Option<+T> = None | Some(value: T)

  /** A JavaScript value. Numbers are integers here: floating point and NaN
      are not part of this model. `Obj` is any plain object; `length` is the
      value of its own `length` property, None when it has none. */
  datatype Value =
    | Undefined
    | Null
    | Bool(b: bool)
    | Num(n: int)
    | Str(s: string)
    | Arr(elems: seq<Value>)
    | Obj(length: Option<Value>)

  /** `!!v` in JavaScript: false exactly for undefined, null, false, 0 and "". */
  predicate Truthy(v: Value)
    ensures !Truthy(v) <==> v in {Undefined, Null, Bool(false), Num(0), Str("")}
  {
    match v
    case Undefined => false
    case Null => false
    case Bool(b) => b
    case Num(n) => n != 0
    case Str(s) => s != ""
    case Arr(_) => true
    case Obj(_) => true
  }

  /** A filename coming from an upload or from the `image` column is used
      only when it is truthy: present and not empty. */
  predicate HasFile(image: Option<string>) {
    image.Some? && image.value != ""
  }

  function DigitChar(d: nat): (c: char)
    requires d < 10
    ensures '0' <= c <= '9'
  {
    ['0', '1', '2', '3', '4', '5', '6', '7', '8', '9'][d]
  }

  /** Decimal digits of a natural number, most significant first. */
  function NatDigits(n: nat): (r: string)
    ensures |r| >= 1
    ensures forall i :: 0 <= i < |r| ==> '0' <= r[i] <= '9'
    ensures n == 0 <==> r == "0"
  {
    if n < 10 then [DigitChar(n)]
    else NatDigits(n / 10) + [DigitChar(n % 10)]
  }

  function IntToString(n: int): (r: string)
    ensures r != ""
  {
    if n < 0 then "-" + NatDigits(-n) else NatDigits(n)
  }

  /** `String(v)` in JavaScript. An array is joined with "," and its
      undefined and null elements become empty strings. */
  function StringOf(v: Value): (r: string)
    ensures v.Str? ==> r == v.s
    ensures r == "" ==> v.Str? || v.Arr?
    decreases v, 1
  {
    match v
    case Undefined => "undefined"
    case Null => "null"
    case Bool(b) => if b then "true" else "false"
    case Num(n) => IntToString(n)
    case Str(s) => s
    case Arr(elems) => JoinElems(v, 0)
    case Obj(_) => "[object Object]"
  }

  function JoinElems(v: Value, from: nat): string
    requires v.Arr? && from <= |v.elems|
    decreases v, 0, |v.elems| - from
  {
    if from == |v.elems| then ""
    else
      var e := v.elems[from];
      var piece := if e.Undefined? || e.Null? then "" else StringOf(e);
      (if from == 0 then "" else ",") + piece + JoinElems(v, from + 1)
  }
}
