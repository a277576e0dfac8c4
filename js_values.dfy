/**
 * The JavaScript values a parsed request body, query string or header can
 * hold, with the three operations the middlewares apply to them: truthiness
 * (`if (!x)`), `typeof x === 'string'`, and conversion with `String(x)`
 * (which a template literal or `RegExp.prototype.test` performs).
 */
module JsValues {
  import opened Text
  import opened Uuid

  /** Numbers are restricted to integers; an object's fields are never inspected. */
  datatype JsValue =
    | Undefined
    | Null
    | Bool(b: bool)
    | Num(n: int)
    | Str(s: string)
    | Arr(items: seq<JsValue>)
    | Obj

  /** JavaScript truthiness: everything except undefined, null, false, 0 and "". */
  predicate Truthy(v: JsValue) {
    match v
    case Undefined => false
    case Null => false
    case Bool(b) => b
    case Num(n) => n != 0
    case Str(s) => s != ""
    case Arr(_) => true
    case Obj => true
  }

  /** `typeof v === 'string'`. */
  predicate IsString(v: JsValue) {
    v.Str?
  }

  /** A present string is truthy exactly when it is not empty. */
  lemma StringTruthy(v: JsValue)
    requires IsString(v)
    ensures Truthy(v) <==> |v.s| > 0
  {
  }

  function DigitChar(d: nat): (c: char)
    requires d < 10
    ensures '0' <= c <= '9'
  {
    "0123456789"[d]
  }

  /** The decimal numeral of a natural number. */
  function NatToString(n: nat): (r: string)
    ensures |r| >= 1
    ensures forall i :: 0 <= i < |r| ==> '0' <= r[i] <= '9'
  {
    if n < 10 then [DigitChar(n)] else NatToString(n / 10) + [DigitChar(n % 10)]
  }

  /**
   * `String(v)`; in an array, undefined and null elements become empty strings.
   * A string converts to itself, and no other value but an array converts to
   * something of the UUID shape.
   */
  function ToJsString(v: JsValue): (r: string)
    ensures v.Str? ==> r == v.s
    ensures !v.Str? && !v.Arr? ==> !IsUuid(r)
  {
    match v
    case Undefined => "undefined"
    case Null => "null"
    case Bool(b) => if b then "true" else "false"
    case Num(n) => NumberIsNotUuid(n); NumberString(n)
    case Str(s) => s
    case Arr(items) => JoinItems(items)
    case Obj => "[object Object]"
  }

  /** A number's decimal form, with a leading `-` when negative. */
  function NumberString(n: int): string {
    if n < 0 then "-" + NatToString(-n) else NatToString(n)
  }

  /** A number's decimal form has no `-` past its first character, so it never has the UUID shape. */
  lemma NumberIsNotUuid(n: int)
    ensures !IsUuid(NumberString(n))
  {
    var r := NumberString(n);
    if |r| == 36 {
      assert r[8] != '-';
    }
  }

  /** `items.join(',')`, the conversion Array.prototype.toString performs. */
  function JoinItems(items: seq<JsValue>): string
  {
    if |items| == 0 then ""
    else
      var head := if items[0].Undefined? || items[0].Null? then "" else ToJsString(items[0]);
      if |items| == 1 then head else head + "," + JoinItems(items[1..])
  }

  /** A one-element array of strings converts to that string. */
  lemma SingletonArrayString(s: string)
    ensures ToJsString(Arr([Str(s)])) == s
  {
    assert ToJsString(Str(s)) == s;
    assert JoinItems([Str(s)]) == ToJsString(Str(s));
  }

  /** Converting a two-element array puts a comma between the two strings. */
  lemma PairArrayString(a: string, b: string)
    ensures ToJsString(Arr([Str(a), Str(b)])) == a + "," + b
  {
    assert [Str(a), Str(b)][1..] == [Str(b)];
    assert JoinItems([Str(b)]) == b by { assert ToJsString(Str(b)) == b; }
    assert ToJsString(Str(a)) == a;
  }
}
