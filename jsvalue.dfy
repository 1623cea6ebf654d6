/**
  JavaScript values as the storage wrapper receives them, and the two
  coercions the wrapper relies on without naming them: `String(v)`, which
  `setItem` applies to whatever it is given and `JSON.parse` applies to its
  argument, and the `.length` of a string, which counts UTF-16 code units.
*/
module JsValue {

  /** A JavaScript value, restricted to the shapes the wrapper can be handed. */
  datatype Value =
    | Undefined                          // also stands for functions and symbols: JSON drops them alike
    | Null
    | Bool(b: bool)
    | Num(n: int)                        // integral numbers only
    | Str(s: string)
    | Arr(items: seq<Value>)
    | Obj(fields: seq<Member>)           // own enumerable properties, in key order
    | Unstringifiable(text: string)      // a cyclic structure or a BigInt: JSON.stringify throws on it;
                                         // `text` is what String() makes of it

  /** One own property of an object. */
  datatype Member = Member(key: string, value: Value)

  function Digit(d: nat): (c: char)
    requires d < 10
    ensures '0' <= c <= '9' && c as int - '0' as int == d
  {
    "0123456789"[d]
  }

  predicate IsDigit(c: char) { '0' <= c <= '9' }

  /** The decimal numeral of `n`, most significant digit first, without leading zeros. */
  function NatToDecimal(n: nat): (r: string)
    ensures |r| > 0 && forall i :: 0 <= i < |r| ==> IsDigit(r[i])
    ensures (r[0] == '0') == (n == 0)
    ensures n == 0 ==> r == "0"
  {
    if n < 10 then [Digit(n)] else NatToDecimal(n / 10) + [Digit(n % 10)]
  }

  /** What `String(n)` gives for an integral number (below 1e21 in magnitude). */
  function IntToDecimal(n: int): string
  {
    if n < 0 then "-" + NatToDecimal(-n) else NatToDecimal(n)
  }

  /** `String(v)`: the text `setItem` stores for a non-string and `JSON.parse` reads. */
  function ToString(v: Value): string
  {
    match v
    case Undefined => "undefined"
    case Null => "null"
    case Bool(b) => if b then "true" else "false"
    case Num(n) => IntToDecimal(n)
    case Str(s) => s
    case Arr(items) => JoinElements(items)
    case Obj(_) => "[object Object]"
    case Unstringifiable(text) => text
  }

  /**
    `Array.prototype.join` with the default separator, which `String()` uses
    for arrays: elements are separated by commas and `undefined` and `null`
    elements become empty text.
  */
  function JoinElements(items: seq<Value>): string
  {
    if items == [] then ""
    else
      var first := if items[0].Undefined? || items[0].Null? then "" else ToString(items[0]);
      if |items| == 1 then first else first + "," + JoinElements(items[1..])
  }

  /**
    `String([x])` is `String(x)`, except that a lone `null` or `undefined`
    element gives empty text: an array of one element turns into the text of
    that element.
  */
  lemma ToStringOfSingleton(x: Value)
    ensures ToString(Arr([x])) == if x.Undefined? || x.Null? then "" else ToString(x)
  {
  }

  /** The number of UTF-16 code units of `c`: characters above U+FFFF take a surrogate pair. */
  function CodeUnits(c: char): (n: nat)
    ensures n == 1 || n == 2
  {
    if c as int > 0xFFFF then 2 else 1
  }

  /** `s.length` in JavaScript: the number of UTF-16 code units of `s`. */
  function Utf16Length(s: string): (n: nat)
    ensures |s| <= n <= 2 * |s|
  {
    if s == [] then 0 else CodeUnits(s[0]) + Utf16Length(s[1..])
  }

  /** The length of a concatenation is the sum of the lengths, as `join('')` relies on. */
  lemma {:induction false} Utf16LengthConcat(a: string, b: string)
    ensures Utf16Length(a + b) == Utf16Length(a) + Utf16Length(b)
  {
    if a != [] {
      assert (a + b)[1..] == a[1..] + b;
      Utf16LengthConcat(a[1..], b);
    } else {
      assert a + b == b;
    }
  }
}
