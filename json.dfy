/**
  The JSON codec the storage wrapper calls: `JSON.stringify` (`Encode`) and
  `JSON.parse` (`Decode`) over the values of module JsValue, written out so
  that the round trip can be proved rather than assumed.

  Numbers are integral: the parser refuses a fraction or an exponent, so such
  text is treated as not JSON.
*/
module Json {
  import opened JsValue
  import opened Optional

  // ---------------------------------------------------------------- values

  /** `JSON.stringify` does not throw on `v`: nothing cyclic and no BigInt anywhere in it. */
  predicate Stringifiable(v: Value)
  {
    match v
    case Unstringifiable(_) => false
    case Arr(items) => forall i :: 0 <= i < |items| ==> Stringifiable(items[i])
    case Obj(fields) => forall i :: 0 <= i < |fields| ==> Stringifiable(fields[i].value)
    case _ => true
  }

  predicate DistinctKeys(fields: seq<Member>)
  {
    forall i, j :: 0 <= i < j < |fields| ==> fields[i].key != fields[j].key
  }

  function KeySet(fields: seq<Member>): set<string>
  {
    set m | m in fields :: m.key
  }

  lemma {:induction false} DistinctKeysCons(m: Member, rest: seq<Member>)
    ensures DistinctKeys([m] + rest) <==> m.key !in KeySet(rest) && DistinctKeys(rest)
  {
    var s := [m] + rest;
    if DistinctKeys(s) {
      forall i, j | 0 <= i < j < |rest| ensures rest[i].key != rest[j].key {
        assert s[i + 1] == rest[i] && s[j + 1] == rest[j];
      }
      forall x | x in rest ensures x.key != m.key {
        var k :| 0 <= k < |rest| && rest[k] == x;
        assert s[0] == m && s[k + 1] == x;
        assert s[0].key != s[k + 1].key;
      }
    }
    if m.key !in KeySet(rest) && DistinctKeys(rest) {
      forall i, j | 0 <= i < j < |s| ensures s[i].key != s[j].key {
        if i == 0 {
          assert s[j] == rest[j - 1] && s[j] in rest;
        } else {
          assert s[i] == rest[i - 1] && s[j] == rest[j - 1];
        }
      }
    }
  }

  /** Every object in `v` has distinct keys, as every JavaScript object does. */
  predicate WellFormed(v: Value)
  {
    match v
    case Arr(items) => forall i :: 0 <= i < |items| ==> WellFormed(items[i])
    case Obj(fields) =>
      DistinctKeys(fields) && forall i :: 0 <= i < |fields| ==> WellFormed(fields[i].value)
    case _ => true
  }

  /** No `undefined` anywhere in `v`. */
  predicate Defined(v: Value)
  {
    match v
    case Undefined => false
    case Arr(items) => forall i :: 0 <= i < |items| ==> Defined(items[i])
    case Obj(fields) => forall i :: 0 <= i < |fields| ==> Defined(fields[i].value)
    case _ => true
  }

  /** The values `JSON.parse` can produce: well formed, stringifiable, with no `undefined`. */
  predicate Canonical(v: Value)
  {
    Stringifiable(v) && WellFormed(v) && Defined(v)
  }

  predicate CanonicalItems(items: seq<Value>)
  {
    forall i :: 0 <= i < |items| ==> Canonical(items[i])
  }

  predicate CanonicalValues(fields: seq<Member>)
  {
    forall i :: 0 <= i < |fields| ==> Canonical(fields[i].value)
  }

  predicate CanonicalMembers(fields: seq<Member>)
  {
    DistinctKeys(fields) && CanonicalValues(fields)
  }

  lemma CanonicalValuesTail(fields: seq<Member>)
    requires fields != [] && CanonicalValues(fields)
    ensures Canonical(fields[0].value) && CanonicalValues(fields[1..])
  {
    assert forall i :: 0 <= i < |fields| - 1 ==> fields[1..][i] == fields[i + 1];
  }

  lemma CanonicalArr(items: seq<Value>)
    ensures Canonical(Arr(items)) <==> CanonicalItems(items)
  {
  }

  lemma CanonicalObj(fields: seq<Member>)
    ensures Canonical(Obj(fields)) <==> CanonicalMembers(fields)
  {
  }

  // ---------------------------------------------------------------- JSON.stringify

  function HexDigit(d: nat): char
    requires d < 16
  {
    "0123456789abcdef"[d]
  }

  /** How `JSON.stringify` writes one character inside a string literal. */
  function EscapeChar(c: char): string
  {
    if c == '"' then "\\\""
    else if c == '\\' then "\\\\"
    else if c as int == 0x08 then "\\b"
    else if c as int == 0x0C then "\\f"
    else if c == '\n' then "\\n"
    else if c == '\r' then "\\r"
    else if c == '\t' then "\\t"
    else if c as int < 0x20 then "\\u00" + [HexDigit(c as int / 16), HexDigit(c as int % 16)]
    else [c]
  }

  function EscapeText(s: string): string
  {
    if s == [] then "" else EscapeChar(s[0]) + EscapeText(s[1..])
  }

  /** A JSON string literal for `s`. */
  function Quote(s: string): string
  {
    "\"" + EscapeText(s) + "\""
  }

  /** Pieces separated by commas. */
  function Join(pieces: seq<string>): string
  {
    if pieces == [] then ""
    else if |pieces| == 1 then pieces[0]
    else pieces[0] + "," + Join(pieces[1..])
  }

  /**
    The JSON text of `v`. An `undefined` reached here is an array element,
    which `JSON.stringify` writes as `null`; `undefined` at the top level has no
    text at all and is dealt with by the callers.
  */
  function Encode(v: Value): string
    requires Stringifiable(v)
  {
    match v
    case Undefined => "null"
    case Null => "null"
    case Bool(b) => if b then "true" else "false"
    case Num(n) => IntToDecimal(n)
    case Str(s) => Quote(s)
    case Arr(items) => "[" + Join(ElementTexts(items)) + "]"
    case Obj(fields) => "{" + Join(MemberTexts(fields)) + "}"
    case Unstringifiable(_) => assert false; ""
  }

  function ElementTexts(items: seq<Value>): (r: seq<string>)
    requires forall i :: 0 <= i < |items| ==> Stringifiable(items[i])
    ensures |r| == |items|
  {
    if items == [] then [] else [Encode(items[0])] + ElementTexts(items[1..])
  }

  /** The `"key":value` pieces of an object; properties whose value is `undefined` are left out. */
  function MemberTexts(fields: seq<Member>): seq<string>
    requires forall i :: 0 <= i < |fields| ==> Stringifiable(fields[i].value)
  {
    if fields == [] then []
    else if fields[0].value.Undefined? then MemberTexts(fields[1..])
    else [Quote(fields[0].key) + ":" + Encode(fields[0].value)] + MemberTexts(fields[1..])
  }

  /** What `JSON.parse(JSON.stringify(v))` gives back: `undefined` elements become `null`, `undefined` properties vanish. */
  function Canon(v: Value): Value
    requires Stringifiable(v)
  {
    match v
    case Undefined => Null
    case Arr(items) => Arr(CanonElements(items))
    case Obj(fields) => Obj(CanonMembers(fields))
    case _ => v
  }

  function CanonElements(items: seq<Value>): (r: seq<Value>)
    requires forall i :: 0 <= i < |items| ==> Stringifiable(items[i])
    ensures |r| == |items|
  {
    if items == [] then [] else [Canon(items[0])] + CanonElements(items[1..])
  }

  function CanonMembers(fields: seq<Member>): seq<Member>
    requires forall i :: 0 <= i < |fields| ==> Stringifiable(fields[i].value)
  {
    if fields == [] then []
    else if fields[0].value.Undefined? then CanonMembers(fields[1..])
    else [Member(fields[0].key, Canon(fields[0].value))] + CanonMembers(fields[1..])
  }

  // ---------------------------------------------------------------- JSON.parse

  predicate IsWhitespace(c: char)
  {
    c == ' ' || c == '\t' || c == '\n' || c == '\r'
  }

  function SkipWhitespace(s: string): (r: string)
    ensures |r| <= |s|
    ensures r == [] || !IsWhitespace(r[0])
  {
    if s != [] && IsWhitespace(s[0]) then SkipWhitespace(s[1..]) else s
  }

  /** The number of digits at the front of `s`. */
  function DigitRun(s: string): (n: nat)
    ensures n <= |s|
    ensures forall i :: 0 <= i < n ==> IsDigit(s[i])
    ensures n < |s| ==> !IsDigit(s[n])
  {
    if s != [] && IsDigit(s[0]) then 1 + DigitRun(s[1..]) else 0
  }

  function DigitValue(c: char): (d: nat)
    requires IsDigit(c)
    ensures d < 10
  {
    c as int - '0' as int
  }

  /** The value of a string of decimal digits. */
  function DigitsValue(ds: string): nat
    requires forall i :: 0 <= i < |ds| ==> IsDigit(ds[i])
  {
    if ds == [] then 0
    else 10 * DigitsValue(ds[..|ds| - 1]) + DigitValue(ds[|ds| - 1])
  }

  /** Digits without a leading zero at the front of `u`, their value and the text after them. */
  function ParseDigits(u: string): (r: Option<(nat, string)>)
    ensures r.Some? ==> |r.value.1| < |u|
  {
    var n := DigitRun(u);
    if n == 0 then None
    else if u[0] == '0' && n > 1 then None
    else if n < |u| && (u[n] == '.' || u[n] == 'e' || u[n] == 'E') then None
    else Some((DigitsValue(u[..n]), u[n..]))
  }

  /** An integer literal: an optional minus sign and digits without a leading zero. */
  function ParseNumber(s: string): (r: Option<(Value, string)>)
    ensures r.Some? ==> |r.value.1| < |s| && r.value.0.Num?
  {
    var negative := s != [] && s[0] == '-';
    match ParseDigits(if negative then s[1..] else s)
    case None => None
    case Some((m, rest)) => Some((Num(if negative then -(m as int) else m), rest))
  }

  function HexValue(c: char): Option<nat>
  {
    if '0' <= c <= '9' then Some(c as int - '0' as int)
    else if 'a' <= c <= 'f' then Some(c as int - 'a' as int + 10)
    else if 'A' <= c <= 'F' then Some(c as int - 'A' as int + 10)
    else None
  }

  /** The code of four hexadecimal digits. */
  function HexCode(s: string): (r: Option<nat>)
    requires |s| == 4
    ensures r.Some? ==> r.value < 0x10000
  {
    match (HexValue(s[0]), HexValue(s[1]), HexValue(s[2]), HexValue(s[3]))
    case (Some(a), Some(b), Some(c), Some(d)) =>
      if a < 16 && b < 16 && c < 16 && d < 16 then Some(((a * 16 + b) * 16 + c) * 16 + d) else None
    case _ => None
  }

  /**
    The character an escape stands for, and how many characters of `s` (the
    text after the backslash) it took. A `\u` escape of a high surrogate
    followed by a `\u` escape of a low surrogate stands for the one character
    above U+FFFF that the pair encodes in UTF-16; a `\u` escape of a lone
    surrogate has no character of its own here and is refused.
  */
  function Unescape(s: string): (r: Option<(char, nat)>)
    ensures r.Some? ==> 1 <= r.value.1 <= |s|
  {
    if s == [] then None
    else if s[0] == '"' || s[0] == '\\' || s[0] == '/' then Some((s[0], 1))
    else if s[0] == 'b' then Some((0x08 as char, 1))
    else if s[0] == 'f' then Some((0x0C as char, 1))
    else if s[0] == 'n' then Some(('\n', 1))
    else if s[0] == 'r' then Some(('\r', 1))
    else if s[0] == 't' then Some(('\t', 1))
    else if s[0] == 'u' && |s| >= 5 then
      match HexCode(s[1..5])
      case Some(code) =>
        if 0xD800 <= code < 0xDC00 then UnescapeLow(s[5..], code)
        else if 0xDC00 <= code < 0xE000 then None
        else Some((code as char, 5))
      case None => None
    else None
  }

  /**
    The rest of a surrogate pair whose high half `high` has been read: `s`
    must start with a `\u` escape of a low surrogate. The count includes the
    five characters of the high half's escape.
  */
  function UnescapeLow(s: string, high: nat): (r: Option<(char, nat)>)
    requires 0xD800 <= high < 0xDC00
    ensures r.Some? ==> r.value.1 == 11 && 6 <= |s|
    ensures r.Some? ==> 0x10000 <= r.value.0 as int < 0x110000
  {
    if |s| >= 6 && s[0] == '\\' && s[1] == 'u' then
      match HexCode(s[2..6])
      case Some(low) =>
        if 0xDC00 <= low < 0xE000 then
          Some(((0x10000 + (high - 0xD800) * 0x400 + (low - 0xDC00)) as char, 11))
        else None
      case None => None
    else None
  }

  /**
    The body of a string literal up to its closing quote: the characters it
    stands for and the text after the quote. Raw control characters are refused.
  */
  function ParseChars(s: string): (r: Option<(string, string)>)
    ensures r.Some? ==> |r.value.0| + |r.value.1| < |s|
  {
    if s == [] then None
    else if s[0] == '"' then Some(([], s[1..]))
    else if s[0] == '\\' then
      match Unescape(s[1..])
      case None => None
      case Some((c, k)) =>
        match ParseChars(s[1 + k..])
        case None => None
        case Some((text, rest)) => Some(([c] + text, rest))
    else if (s[0] as int) < 0x20 then None
    else
      match ParseChars(s[1..])
      case None => None
      case Some((text, rest)) => Some(([s[0]] + text, rest))
  }

  /** `fields` with property `key` set to `v`: replaced where it is, or added at the end. */
  function Upsert(fields: seq<Member>, key: string, v: Value): (r: seq<Member>)
    ensures forall m :: m in r ==> m == Member(key, v) || m in fields
    ensures forall m :: m in fields && m.key != key ==> m in r
    ensures Member(key, v) in r
    ensures KeySet(r) == KeySet(fields) + {key}
  {
    if fields == [] then [Member(key, v)]
    else
      assert [fields[0]] + fields[1..] == fields;
      KeySetCons(fields[0], fields[1..]);
      if fields[0].key == key then
        KeySetCons(Member(key, v), fields[1..]);
        [Member(key, v)] + fields[1..]
      else
        var tail := Upsert(fields[1..], key, v);
        KeySetCons(fields[0], tail);
        [fields[0]] + tail
  }

  lemma KeySetCons(m: Member, rest: seq<Member>)
    ensures KeySet([m] + rest) == {m.key} + KeySet(rest)
  {
    var s := [m] + rest;
    assert s[0] == m;
    forall x | x in rest ensures x in s {
      var k :| 0 <= k < |rest| && rest[k] == x;
      assert s[k + 1] == x;
    }
  }

  /** Setting a property never makes two properties share a key. */
  lemma {:induction false} UpsertDistinct(fields: seq<Member>, key: string, v: Value)
    requires DistinctKeys(fields)
    ensures DistinctKeys(Upsert(fields, key, v))
  {
    if fields != [] {
      var m := fields[0];
      assert [m] + fields[1..] == fields;
      DistinctKeysCons(m, fields[1..]);
      if m.key == key {
        DistinctKeysCons(Member(key, v), fields[1..]);
      } else {
        UpsertDistinct(fields[1..], key, v);
        DistinctKeysCons(m, Upsert(fields[1..], key, v));
      }
    }
  }

  lemma UpsertCanonical(fields: seq<Member>, key: string, v: Value)
    requires CanonicalMembers(fields) && Canonical(v)
    ensures CanonicalMembers(Upsert(fields, key, v))
  {
    UpsertDistinct(fields, key, v);
    var r := Upsert(fields, key, v);
    forall i | 0 <= i < |r| ensures Canonical(r[i].value) {
      assert r[i] in r;
      if r[i] != Member(key, v) {
        var j :| 0 <= j < |fields| && fields[j] == r[i];
      }
    }
  }

  /** A JSON value after optional whitespace, and the text after it. */
  function ParseValue(s: string): (r: Option<(Value, string)>)
    ensures r.Some? ==> |r.value.1| < |s| && Canonical(r.value.0)
    ensures r.Some? && r.value.0.Str? ==> |r.value.0.s| + |r.value.1| < |s|
    decreases |s|, 0
  {
    var t := SkipWhitespace(s);
    if t == [] then None
    else if t[0] == '"' then
      match ParseChars(t[1..])
      case None => None
      case Some((text, rest)) => Some((Str(text), rest))
    else if t[0] == '[' then ParseArray(t[1..])
    else if t[0] == '{' then ParseObject(t[1..])
    else if t[0] == '-' || IsDigit(t[0]) then ParseNumber(t)
    else if |t| >= 4 && t[..4] == "null" then Some((Null, t[4..]))
    else if |t| >= 4 && t[..4] == "true" then Some((Bool(true), t[4..]))
    else if |t| >= 5 && t[..5] == "false" then Some((Bool(false), t[5..]))
    else None
  }

  /** The rest of an array after its `[`. */
  function ParseArray(s: string): (r: Option<(Value, string)>)
    ensures r.Some? ==> |r.value.1| < |s| && Canonical(r.value.0) && r.value.0.Arr?
    decreases |s|, 2
  {
    var t := SkipWhitespace(s);
    if t != [] && t[0] == ']' then CanonicalArr([]); Some((Arr([]), t[1..]))
    else ParseElements(t, [])
  }

  /** Elements of an array, the first of them at the front of `s`; `acc` holds the ones before. */
  function ParseElements(s: string, acc: seq<Value>): (r: Option<(Value, string)>)
    requires CanonicalItems(acc)
    ensures r.Some? ==> |r.value.1| < |s| && Canonical(r.value.0) && r.value.0.Arr?
    decreases |s|, 1
  {
    match ParseValue(s)
    case None => None
    case Some((v, rest)) =>
      var items := acc + [v];
      assert CanonicalItems(items) by {
        assert forall i :: 0 <= i < |acc| ==> items[i] == acc[i];
      }
      var t := SkipWhitespace(rest);
      if t == [] then None
      else if t[0] == ',' then ParseElements(t[1..], items)
      else if t[0] == ']' then CanonicalArr(items); Some((Arr(items), t[1..]))
      else None
  }

  /** The rest of an object after its `{`. */
  function ParseObject(s: string): (r: Option<(Value, string)>)
    ensures r.Some? ==> |r.value.1| < |s| && Canonical(r.value.0) && r.value.0.Obj?
    decreases |s|, 3
  {
    var t := SkipWhitespace(s);
    if t != [] && t[0] == '}' then CanonicalObj([]); Some((Obj([]), t[1..]))
    else ParseMembers(t, [])
  }

  /** One `"key": value` pair after optional whitespace, and the text after it. */
  function ParseMember(s: string): (r: Option<(Member, string)>)
    ensures r.Some? ==> |r.value.1| < |s| && Canonical(r.value.0.value)
    decreases |s|, 1
  {
    var t := SkipWhitespace(s);
    if t == [] || t[0] != '"' then None
    else
      match ParseChars(t[1..])
      case None => None
      case Some((key, rest)) =>
        var u := SkipWhitespace(rest);
        if u == [] || u[0] != ':' then None
        else
          match ParseValue(u[1..])
          case None => None
          case Some((v, rest')) => Some((Member(key, v), rest'))
  }

  /** Members of an object, the first of them in `s`; a repeated key keeps its place and takes the later value. */
  function ParseMembers(s: string, acc: seq<Member>): (r: Option<(Value, string)>)
    requires CanonicalMembers(acc)
    ensures r.Some? ==> |r.value.1| < |s| && Canonical(r.value.0) && r.value.0.Obj?
    decreases |s|, 2
  {
    match ParseMember(s)
    case None => None
    case Some((m, rest)) =>
      var fields := Upsert(acc, m.key, m.value);
      UpsertCanonical(acc, m.key, m.value);
      var w := SkipWhitespace(rest);
      if w == [] then None
      else if w[0] == ',' then ParseMembers(w[1..], fields)
      else if w[0] == '}' then CanonicalObj(fields); Some((Obj(fields), w[1..]))
      else None
  }

  /** `JSON.parse(text)`: a value with nothing but whitespace around it, or nothing when `text` is not JSON. */
  function Decode(text: string): (r: Option<Value>)
    ensures r.Some? ==> Canonical(r.value)
    ensures r.Some? && r.value.Str? ==> |r.value.s| < |text|
  {
    match ParseValue(text)
    case None => None
    case Some((v, rest)) => if SkipWhitespace(rest) == [] then Some(v) else None
  }

  // ---------------------------------------------------------------- round trip

  /** What may follow a value inside JSON text without running into it. */
  predicate Delimited(rest: string)
  {
    rest == [] || rest[0] == ',' || rest[0] == ']' || rest[0] == '}'
  }

  lemma SkipNoWhitespace(s: string)
    requires s == [] || !IsWhitespace(s[0])
    ensures SkipWhitespace(s) == s
  {
  }

  lemma {:induction false} DigitsValueOfDecimal(n: nat)
    ensures DigitsValue(NatToDecimal(n)) == n
  {
    var ds := NatToDecimal(n);
    if n < 10 {
      assert ds[..0] == [];
    } else {
      var p := NatToDecimal(n / 10);
      assert ds == p + [Digit(n % 10)];
      assert ds[..|ds| - 1] == p;
      DigitsValueOfDecimal(n / 10);
    }
  }

  lemma {:induction false} DigitRunOver(ds: string, rest: string)
    requires forall i :: 0 <= i < |ds| ==> IsDigit(ds[i])
    requires rest == [] || !IsDigit(rest[0])
    ensures DigitRun(ds + rest) == |ds|
  {
    if ds == [] {
      assert ds + rest == rest;
    } else {
      assert (ds + rest)[1..] == ds[1..] + rest;
      DigitRunOver(ds[1..], rest);
    }
  }

  /** The digits of a natural number, followed by a delimiter, read back as that number. */
  lemma ParseDigitsOfDecimal(n: nat, rest: string)
    requires Delimited(rest)
    ensures ParseDigits(NatToDecimal(n) + rest) == Some((n, rest))
  {
    var ds := NatToDecimal(n);
    var u := ds + rest;
    DigitRunOver(ds, rest);
    DigitsValueOfDecimal(n);
    assert u[..|ds|] == ds;
    assert u[|ds|..] == rest;
  }

  lemma ParseNonNegative(n: int, rest: string)
    requires n >= 0 && Delimited(rest)
    ensures ParseNumber(IntToDecimal(n) + rest) == Some((Num(n), rest))
  {
    var s := NatToDecimal(n) + rest;
    assert IntToDecimal(n) + rest == s;
    ParseDigitsOfDecimal(n, rest);
    assert s[0] != '-';
  }

  lemma ParseNegative(n: int, rest: string)
    requires n < 0 && Delimited(rest)
    ensures ParseNumber(IntToDecimal(n) + rest) == Some((Num(n), rest))
  {
    var m: nat := -n;
    var u := NatToDecimal(m) + rest;
    assert IntToDecimal(n) + rest == "-" + u;
    ParseDigitsOfDecimal(m, rest);
    ParseNumberNegative(u, m, rest);
  }

  lemma ParseNumberNegative(u: string, m: nat, rest: string)
    requires ParseDigits(u) == Some((m, rest))
    ensures ParseNumber("-" + u) == Some((Num(-(m as int)), rest))
  {
    assert ("-" + u)[1..] == u;
  }

  /** An integer's numeral reads back as that integer. */
  lemma ParseNumberOfDecimal(n: int, rest: string)
    requires Delimited(rest)
    ensures ParseNumber(IntToDecimal(n) + rest) == Some((Num(n), rest))
  {
    if n < 0 {
      ParseNegative(n, rest);
    } else {
      ParseNonNegative(n, rest);
    }
  }

  lemma HexDigitValue(d: nat)
    requires d < 16
    ensures HexValue(HexDigit(d)) == Some(d)
  {
  }

  /** How ParseChars goes on after one character `c` it has read. */
  function Continue(c: char, tail: string): Option<(string, string)>
  {
    match ParseChars(tail)
    case None => None
    case Some((text, rest)) => Some(([c] + text, rest))
  }

  /** A character written as a backslash and one letter reads back as itself. */
  lemma ParseShortEscape(c: char, tail: string)
    requires c == '"' || c == '\\' || c as int == 0x08 || c as int == 0x0C || c == '\n' || c == '\r' || c == '\t'
    ensures ParseChars(EscapeChar(c) + tail) == Continue(c, tail)
  {
    var s := EscapeChar(c) + tail;
    assert |EscapeChar(c)| == 2 && EscapeChar(c)[0] == '\\';
    assert s[1..] == [EscapeChar(c)[1]] + tail;
    assert s[2..] == tail;
  }

  /** A control character written as `\u00XX` reads back as itself. */
  lemma ParseUnicodeEscape(c: char, tail: string)
    requires c as int < 0x20
    requires !(c as int == 0x08 || c as int == 0x0C || c == '\n' || c == '\r' || c == '\t')
    ensures ParseChars(EscapeChar(c) + tail) == Continue(c, tail)
  {
    var s := EscapeChar(c) + tail;
    var h1, h2 := c as int / 16, c as int % 16;
    HexDigitValue(h1);
    HexDigitValue(h2);
    assert EscapeChar(c) == ['\\', 'u', '0', '0', HexDigit(h1), HexDigit(h2)];
    assert s[1..][1..5] == ['0', '0', HexDigit(h1), HexDigit(h2)];
    assert HexCode(s[1..][1..5]) == Some(c as int);
    assert Unescape(s[1..]) == Some((c, 5));
    assert s[1 + 5..] == tail;
  }

  /** Reading one escaped character back: it contributes exactly itself. */
  lemma ParseEscapedChar(c: char, tail: string)
    ensures ParseChars(EscapeChar(c) + tail) == Continue(c, tail)
  {
    if c == '"' || c == '\\' || c as int == 0x08 || c as int == 0x0C || c == '\n' || c == '\r' || c == '\t' {
      ParseShortEscape(c, tail);
    } else if c as int < 0x20 {
      ParseUnicodeEscape(c, tail);
    } else {
      var s := EscapeChar(c) + tail;
      assert s == [c] + tail;
      assert s[1..] == tail;
    }
  }

  /** A string's escaped text followed by a closing quote reads back as the string. */
  lemma {:induction false} ParseEscaped(s: string, rest: string)
    ensures ParseChars(EscapeText(s) + "\"" + rest) == Some((s, rest))
  {
    if s == [] {
      assert EscapeText(s) + "\"" + rest == "\"" + rest;
      assert ("\"" + rest)[1..] == rest;
    } else {
      var tail := EscapeText(s[1..]) + "\"" + rest;
      assert EscapeText(s) + "\"" + rest == EscapeChar(s[0]) + tail;
      ParseEscaped(s[1..], rest);
      ParseEscapedChar(s[0], tail);
      assert [s[0]] + s[1..] == s;
    }
  }

  /**
    The first character of `JSON.stringify`'s text tells the kind of value:
    a quote for a string, a bracket for an array, a brace for an object, and
    otherwise a minus sign or digit for a number or a letter for a literal.
  */
  lemma EncodeKind(v: Value)
    requires Stringifiable(v)
    ensures Encode(v) != []
    ensures Encode(v)[0] == '"' <==> v.Str?
    ensures Encode(v)[0] == '[' <==> v.Arr?
    ensures Encode(v)[0] == '{' <==> v.Obj?
    ensures v.Num? <==> Encode(v)[0] == '-' || IsDigit(Encode(v)[0])
  {
    if v.Num? {
      var ds := NatToDecimal(if v.n < 0 then -v.n else v.n);
      assert IsDigit(ds[0]);
    }
  }

  /** The escape `\ude00` completes the high surrogate D83D to U+1F600. */
  lemma LowHalf()
    ensures UnescapeLow("\\ude00\"", 0xD83D) == Some(('\U{1F600}', 11))
  {
    assert HexValue('d') == Some(13) && HexValue('e') == Some(14) && HexValue('0') == Some(0);
    assert "\\ude00\""[2..6] == "de00";
    assert HexCode("de00") == Some(0xDE00);
  }

  /** The escape `\ud83d\ude00` stands for U+1F600 and takes eleven characters after its backslash. */
  lemma SurrogatePair(s: string)
    requires s == "ud83d\\ude00\""
    ensures Unescape(s) == Some(('\U{1F600}', 11))
  {
    assert HexValue('d') == Some(13) && HexValue('8') == Some(8) && HexValue('3') == Some(3);
    assert s[1..5] == "d83d";
    assert HexCode("d83d") == Some(0xD83D);
    assert s[5..] == "\\ude00\"";
    LowHalf();
  }

  /** The body of the string literal holding the pair reads as that one character. */
  lemma ParsePairChars(body: string)
    requires body == "\\ud83d\\ude00\""
    ensures ParseChars(body) == Some(("\U{1F600}", ""))
  {
    SurrogatePair(body[1..]);
    assert body[1 + 11..] == "\"";
    assert ParseChars(body[1 + 11..]) == Some(([], ""));
    assert ['\U{1F600}'] + [] == "\U{1F600}";
  }

  /** An escaped surrogate pair reads as the one character above U+FFFF it encodes, as `JSON.parse` reads it. */
  lemma DecodeSurrogatePair()
    ensures Decode("\"\\ud83d\\ude00\"") == Some(Str("\U{1F600}"))
  {
    var text := "\"\\ud83d\\ude00\"";
    ParsePairChars(text[1..]);
    assert SkipWhitespace(text) == text;
  }

  /** The text of a value starts with a character that is neither whitespace nor a closing bracket. */
  lemma EncodeStart(v: Value)
    requires Canonical(v)
    ensures Encode(v) != [] && !IsWhitespace(Encode(v)[0]) && Encode(v)[0] != ']' && Encode(v)[0] != '}'
  {
    match v
    case Num(n) =>
      var ds := NatToDecimal(if n < 0 then -n else n);
      assert IsDigit(ds[0]);
    case _ =>
  }

  lemma {:induction false} UpsertNew(fields: seq<Member>, key: string, v: Value)
    requires key !in KeySet(fields)
    ensures Upsert(fields, key, v) == fields + [Member(key, v)]
  {
    if fields != [] {
      assert fields[0] in fields;
      assert KeySet(fields[1..]) <= KeySet(fields) by {
        forall m | m in fields[1..] ensures m in fields {
        }
      }
      UpsertNew(fields[1..], key, v);
      assert [fields[0]] + fields[1..] == fields;
    }
  }

  /** The text of a canonical value reads back as that value, whatever delimiter follows. */
  lemma {:induction false} ParseEncoded(v: Value, rest: string)
    requires Canonical(v) && Delimited(rest)
    ensures ParseValue(Encode(v) + rest) == Some((v, rest))
    decreases v, 2
  {
    match v
    case Null => ParseLiteralEncoded(v, rest);
    case Bool(_) => ParseLiteralEncoded(v, rest);
    case Num(n) => ParseNumberEncoded(n, rest);
    case Str(x) => ParseStringEncoded(x, rest);
    case Arr(items) => ParseArrayEncoded(items, rest);
    case Obj(fields) => ParseObjectEncoded(fields, rest);
  }

  lemma ParseLiteralEncoded(v: Value, rest: string)
    requires v.Null? || v.Bool?
    ensures ParseValue(Encode(v) + rest) == Some((v, rest))
  {
    var s := Encode(v) + rest;
    SkipNoWhitespace(s);
    if v.Null? || v.b {
      assert s[..4] == Encode(v) && s[4..] == rest;
    } else {
      assert s[..5] == "false" && s[5..] == rest;
    }
  }

  lemma ParseNumberEncoded(n: int, rest: string)
    requires Delimited(rest)
    ensures ParseValue(IntToDecimal(n) + rest) == Some((Num(n), rest))
  {
    var s := IntToDecimal(n) + rest;
    var ds := NatToDecimal(if n < 0 then -n else n);
    assert IsDigit(ds[0]);
    ParseValueNumber(s);
    ParseNumberOfDecimal(n, rest);
  }

  lemma ParseStringEncoded(x: string, rest: string)
    ensures ParseValue(Quote(x) + rest) == Some((Str(x), rest))
  {
    var body := EscapeText(x) + "\"" + rest;
    assert Quote(x) + rest == "\"" + body;
    ParseEscaped(x, rest);
    ParseValueString(body, x, rest);
  }

  // How ParseValue, ParseArray and ParseObject begin, one step each.

  lemma ParseValueNumber(s: string)
    requires s != [] && (s[0] == '-' || IsDigit(s[0]))
    ensures ParseValue(s) == ParseNumber(s)
  {
    SkipNoWhitespace(s);
  }

  lemma ParseValueString(body: string, text: string, rest: string)
    requires ParseChars(body) == Some((text, rest))
    ensures ParseValue("\"" + body) == Some((Str(text), rest))
  {
    SkipNoWhitespace("\"" + body);
    assert ("\"" + body)[1..] == body;
  }

  lemma ParseValueArray(body: string)
    ensures ParseValue("[" + body) == ParseArray(body)
  {
    SkipNoWhitespace("[" + body);
    assert ("[" + body)[1..] == body;
  }

  lemma ParseValueObject(body: string)
    ensures ParseValue("{" + body) == ParseObject(body)
  {
    SkipNoWhitespace("{" + body);
    assert ("{" + body)[1..] == body;
  }

  lemma ParseArrayEmpty(rest: string)
    ensures ParseArray("]" + rest) == Some((Arr([]), rest))
  {
    SkipNoWhitespace("]" + rest);
    assert ("]" + rest)[1..] == rest;
  }

  lemma ParseArrayFirst(body: string)
    requires body != [] && !IsWhitespace(body[0]) && body[0] != ']'
    ensures ParseArray(body) == ParseElements(body, [])
  {
    SkipNoWhitespace(body);
  }

  lemma ParseObjectEmpty(rest: string)
    ensures ParseObject("}" + rest) == Some((Obj([]), rest))
  {
    SkipNoWhitespace("}" + rest);
    assert ("}" + rest)[1..] == rest;
  }

  lemma ParseObjectFirst(body: string)
    requires body != [] && body[0] == '"'
    ensures ParseObject(body) == ParseMembers(body, [])
  {
    SkipNoWhitespace(body);
  }

  /** The text of an array reads back as the array. */
  lemma {:induction false} ParseArrayEncoded(items: seq<Value>, rest: string)
    requires Canonical(Arr(items)) && Delimited(rest)
    ensures ParseValue(Encode(Arr(items)) + rest) == Some((Arr(items), rest))
    decreases items, 4
  {
    CanonicalArr(items);
    assert Encode(Arr(items)) == "[" + Join(ElementTexts(items)) + "]";
    Regroup("[", Join(ElementTexts(items)), "]", rest);
    ParseArrayBody(items, rest);
  }

  lemma {:induction false} ParseArrayBody(items: seq<Value>, rest: string)
    requires CanonicalItems(items) && Delimited(rest)
    ensures ParseValue("[" + (Join(ElementTexts(items)) + "]" + rest)) == Some((Arr(items), rest))
    decreases items, 3
  {
    var body := Join(ElementTexts(items)) + "]" + rest;
    ParseValueArray(body);
    if items == [] {
      assert body == "]" + rest;
      ParseArrayEmpty(rest);
    } else {
      ParseElementsFirst(items, rest);
    }
  }

  lemma {:induction false} ParseElementsFirst(items: seq<Value>, rest: string)
    requires items != [] && CanonicalItems(items) && Delimited(rest)
    ensures ParseArray(Join(ElementTexts(items)) + "]" + rest) == Some((Arr(items), rest))
    decreases items, 2
  {
    var body := Join(ElementTexts(items)) + "]" + rest;
    EncodeStart(items[0]);
    JoinFirst(ElementTexts(items));
    ParseArrayFirst(body);
    ParseElementsEncoded(items, [], rest);
    assert [] + items == items;
  }

  /** The text of an object reads back as the object. */
  lemma {:induction false} ParseObjectEncoded(fields: seq<Member>, rest: string)
    requires Canonical(Obj(fields)) && Delimited(rest)
    ensures ParseValue(Encode(Obj(fields)) + rest) == Some((Obj(fields), rest))
    decreases fields, 4
  {
    CanonicalObj(fields);
    assert Encode(Obj(fields)) == "{" + Join(MemberTexts(fields)) + "}";
    Regroup("{", Join(MemberTexts(fields)), "}", rest);
    ParseObjectBody(fields, rest);
  }

  lemma {:induction false} ParseObjectBody(fields: seq<Member>, rest: string)
    requires CanonicalMembers(fields) && Delimited(rest)
    ensures ParseValue("{" + (Join(MemberTexts(fields)) + "}" + rest)) == Some((Obj(fields), rest))
    decreases fields, 3
  {
    var body := Join(MemberTexts(fields)) + "}" + rest;
    ParseValueObject(body);
    if fields == [] {
      assert body == "}" + rest;
      ParseObjectEmpty(rest);
    } else {
      ParseMembersFirst(fields, rest);
    }
  }

  lemma {:induction false} ParseMembersFirst(fields: seq<Member>, rest: string)
    requires fields != [] && CanonicalMembers(fields) && Delimited(rest)
    ensures ParseObject(Join(MemberTexts(fields)) + "}" + rest) == Some((Obj(fields), rest))
    decreases fields, 2
  {
    var body := Join(MemberTexts(fields)) + "}" + rest;
    MemberTextsCons(fields);
    JoinFirst(MemberTexts(fields));
    ParseObjectFirst(body);
    ParseMembersEncoded(fields, [], rest);
    assert [] + fields == fields;
  }

  lemma Regroup(a: string, b: string, c: string, d: string)
    ensures a + b + c + d == a + (b + c + d)
  {
  }

  lemma AppendFirst<T>(acc: seq<T>, xs: seq<T>)
    requires xs != []
    ensures acc + [xs[0]] + xs[1..] == acc + xs
  {
    assert [xs[0]] + xs[1..] == xs;
  }

  lemma {:induction false} JoinFirst(pieces: seq<string>)
    requires pieces != [] && pieces[0] != []
    ensures Join(pieces) != [] && Join(pieces)[0] == pieces[0][0]
  {
  }

  lemma {:induction false} JoinCons(pieces: seq<string>)
    requires |pieces| > 1
    ensures Join(pieces) == pieces[0] + "," + Join(pieces[1..])
  {
  }

  /** A canonical object has no `undefined` property, so every member has a text. */
  lemma MemberTextsCons(fields: seq<Member>)
    requires fields != [] && CanonicalValues(fields)
    ensures MemberTexts(fields) == [Quote(fields[0].key) + ":" + Encode(fields[0].value)] + MemberTexts(fields[1..])
  {
    CanonicalValuesTail(fields);
  }

  lemma ElementsNext(s: string, acc: seq<Value>, v: Value, tail: string)
    requires CanonicalItems(acc) && ParseValue(s) == Some((v, "," + tail))
    ensures CanonicalItems(acc + [v])
    ensures ParseElements(s, acc) == ParseElements(tail, acc + [v])
  {
    var items := acc + [v];
    assert forall i :: 0 <= i < |acc| ==> items[i] == acc[i];
    SkipNoWhitespace("," + tail);
    assert ("," + tail)[1..] == tail;
  }

  lemma ElementsLast(s: string, acc: seq<Value>, v: Value, rest: string)
    requires CanonicalItems(acc) && ParseValue(s) == Some((v, "]" + rest))
    ensures ParseElements(s, acc) == Some((Arr(acc + [v]), rest))
  {
    SkipNoWhitespace("]" + rest);
    assert ("]" + rest)[1..] == rest;
  }

  /** The comma-separated texts of canonical elements, closed by `]`, read back as those elements. */
  lemma {:induction false} ParseElementsEncoded(items: seq<Value>, acc: seq<Value>, rest: string)
    requires |items| > 0 && Delimited(rest)
    requires CanonicalItems(items) && CanonicalItems(acc)
    ensures ParseElements(Join(ElementTexts(items)) + "]" + rest, acc) == Some((Arr(acc + items), rest))
    decreases items, 1
  {
    if |items| == 1 {
      LastElementEncoded(items, acc, rest);
    } else {
      var tail := Join(ElementTexts(items[1..])) + "]" + rest;
      NextElementEncoded(items, acc, rest);
      assert CanonicalItems(items[1..]) by {
        assert forall i :: 0 <= i < |items| - 1 ==> items[1..][i] == items[i + 1];
      }
      ParseElementsEncoded(items[1..], acc + [items[0]], rest);
      AppendFirst(acc, items);
    }
  }

  lemma {:induction false} LastElementEncoded(items: seq<Value>, acc: seq<Value>, rest: string)
    requires |items| == 1 && Delimited(rest)
    requires CanonicalItems(items) && CanonicalItems(acc)
    ensures ParseElements(Join(ElementTexts(items)) + "]" + rest, acc) == Some((Arr(acc + items), rest))
    decreases items, 0
  {
    var e := Encode(items[0]);
    var s := Join(ElementTexts(items)) + "]" + rest;
    assert s == e + ("]" + rest) by {
      assert ElementTexts(items) == [e];
    }
    ParseEncoded(items[0], "]" + rest);
    ElementsLast(s, acc, items[0], rest);
    assert acc + [items[0]] == acc + items;
  }

  lemma {:induction false} NextElementEncoded(items: seq<Value>, acc: seq<Value>, rest: string)
    requires |items| > 1 && Delimited(rest)
    requires CanonicalItems(items) && CanonicalItems(acc)
    ensures CanonicalItems(acc + [items[0]])
    ensures ParseElements(Join(ElementTexts(items)) + "]" + rest, acc)
         == ParseElements(Join(ElementTexts(items[1..])) + "]" + rest, acc + [items[0]])
    decreases items, 0
  {
    var e := Encode(items[0]);
    var s := Join(ElementTexts(items)) + "]" + rest;
    var tail := Join(ElementTexts(items[1..])) + "]" + rest;
    ElementTextsSplit(items, rest);
    ParseEncoded(items[0], "," + tail);
    ElementsNext(s, acc, items[0], tail);
  }

  lemma {:induction false} ElementTextsSplit(items: seq<Value>, rest: string)
    requires |items| > 1 && CanonicalItems(items)
    ensures Join(ElementTexts(items)) + "]" + rest == Encode(items[0]) + ("," + (Join(ElementTexts(items[1..])) + "]" + rest))
  {
    var ts := ElementTexts(items);
    assert ts == [Encode(items[0])] + ElementTexts(items[1..]);
    assert ts[1..] == ElementTexts(items[1..]);
    JoinSplit(ts, "]", rest);
  }

  /** One member's text reads back as that member. */
  lemma {:induction false} ParseMemberEncoded(m: Member, sep: string)
    requires Canonical(m.value) && Delimited(sep)
    ensures ParseMember(Quote(m.key) + ":" + Encode(m.value) + sep) == Some((m, sep))
    decreases m, 0
  {
    ParseEncoded(m.value, sep);
    MemberFromParts(m.key, Encode(m.value), m.value, sep);
  }

  /** A key literal, a colon and text that reads back as `v` read back as the member. */
  lemma MemberFromParts(key: string, e: string, v: Value, sep: string)
    requires ParseValue(e + sep) == Some((v, sep))
    ensures ParseMember(Quote(key) + ":" + e + sep) == Some((Member(key, v), sep))
  {
    MemberTextShape(key, e + sep);
    Regroup3(Quote(key) + ":", e, sep);
    ParseEscaped(key, ":" + (e + sep));
    ParseMemberSteps(EscapeText(key) + "\"" + (":" + (e + sep)), key, e + sep, v, sep);
  }

  lemma MemberTextShape(key: string, tail: string)
    ensures Quote(key) + ":" + tail == "\"" + (EscapeText(key) + "\"" + (":" + tail))
  {
  }

  lemma Regroup3(a: string, b: string, c: string)
    ensures a + b + c == a + (b + c)
  {
  }

  /** ParseMember, step by step: a quote, the key's characters, a colon and a value. */
  lemma ParseMemberSteps(body: string, key: string, tail: string, v: Value, sep: string)
    requires ParseChars(body) == Some((key, ":" + tail))
    requires ParseValue(tail) == Some((v, sep))
    ensures ParseMember("\"" + body) == Some((Member(key, v), sep))
  {
    SkipNoWhitespace("\"" + body);
    assert ("\"" + body)[1..] == body;
    SkipNoWhitespace(":" + tail);
    assert (":" + tail)[1..] == tail;
  }

  lemma MembersNext(s: string, acc: seq<Member>, m: Member, tail: string)
    requires CanonicalMembers(acc) && ParseMember(s) == Some((m, "," + tail))
    ensures CanonicalMembers(Upsert(acc, m.key, m.value))
    ensures ParseMembers(s, acc) == ParseMembers(tail, Upsert(acc, m.key, m.value))
  {
    UpsertCanonical(acc, m.key, m.value);
    SkipNoWhitespace("," + tail);
    assert ("," + tail)[1..] == tail;
  }

  lemma MembersLast(s: string, acc: seq<Member>, m: Member, rest: string)
    requires CanonicalMembers(acc) && ParseMember(s) == Some((m, "}" + rest))
    ensures ParseMembers(s, acc) == Some((Obj(Upsert(acc, m.key, m.value)), rest))
  {
    SkipNoWhitespace("}" + rest);
    assert ("}" + rest)[1..] == rest;
  }

  /** The comma-separated member texts of a canonical object, closed by `}`, read back as those members. */
  lemma {:induction false} ParseMembersEncoded(fields: seq<Member>, acc: seq<Member>, rest: string)
    requires |fields| > 0 && Delimited(rest)
    requires CanonicalMembers(acc) && CanonicalMembers(fields)
    requires KeySet(acc) !! KeySet(fields)
    ensures ParseMembers(Join(MemberTexts(fields)) + "}" + rest, acc) == Some((Obj(acc + fields), rest))
    decreases fields, 1
  {
    if |fields| == 1 {
      LastMemberEncoded(fields, acc, rest);
    } else {
      NextMemberEncoded(fields, acc, rest);
      MembersTail(fields, acc);
      ParseMembersEncoded(fields[1..], acc + [fields[0]], rest);
      AppendFirst(acc, fields);
    }
  }

  lemma {:induction false} LastMemberEncoded(fields: seq<Member>, acc: seq<Member>, rest: string)
    requires |fields| == 1 && Delimited(rest)
    requires CanonicalMembers(acc) && CanonicalMembers(fields)
    requires KeySet(acc) !! KeySet(fields)
    ensures ParseMembers(Join(MemberTexts(fields)) + "}" + rest, acc) == Some((Obj(acc + fields), rest))
    decreases fields, 0
  {
    var m := fields[0];
    assert fields == [m];
    assert m in fields;
    var s := Join(MemberTexts(fields)) + "}" + rest;
    MemberTextsSingle(fields, rest);
    ParseMemberEncoded(m, "}" + rest);
    MembersLast(s, acc, m, rest);
    UpsertNew(acc, m.key, m.value);
  }

  lemma MemberTextsSingle(fields: seq<Member>, rest: string)
    requires |fields| == 1 && CanonicalValues(fields)
    ensures Canonical(fields[0].value)
    ensures Join(MemberTexts(fields)) + "}" + rest == Quote(fields[0].key) + ":" + Encode(fields[0].value) + ("}" + rest)
  {
    MemberTextsCons(fields);
    assert MemberTexts(fields[1..]) == [];
  }

  lemma {:induction false} NextMemberEncoded(fields: seq<Member>, acc: seq<Member>, rest: string)
    requires |fields| > 1 && Delimited(rest)
    requires CanonicalMembers(acc) && CanonicalMembers(fields)
    requires KeySet(acc) !! KeySet(fields)
    ensures CanonicalMembers(acc + [fields[0]])
    ensures ParseMembers(Join(MemberTexts(fields)) + "}" + rest, acc)
         == ParseMembers(Join(MemberTexts(fields[1..])) + "}" + rest, acc + [fields[0]])
    decreases fields, 0
  {
    var m := fields[0];
    assert m in fields;
    var s := Join(MemberTexts(fields)) + "}" + rest;
    var tail := Join(MemberTexts(fields[1..])) + "}" + rest;
    MemberTextsSplit(fields, rest);
    ParseMemberEncoded(m, "," + tail);
    MembersNext(s, acc, m, tail);
    UpsertNew(acc, m.key, m.value);
  }

  lemma {:induction false} MemberTextsSplit(fields: seq<Member>, rest: string)
    requires |fields| > 1 && CanonicalValues(fields)
    ensures Join(MemberTexts(fields)) + "}" + rest
         == Quote(fields[0].key) + ":" + Encode(fields[0].value) + ("," + (Join(MemberTexts(fields[1..])) + "}" + rest))
  {
    MemberTextsCons(fields);
    CanonicalValuesTail(fields);
    MemberTextsCons(fields[1..]);
    JoinSplit(MemberTexts(fields), "}", rest);
  }

  lemma {:induction false} JoinSplit(pieces: seq<string>, close: string, rest: string)
    requires |pieces| > 1
    ensures Join(pieces) + close + rest == pieces[0] + ("," + (Join(pieces[1..]) + close + rest))
  {
    JoinCons(pieces);
  }

  /** Moving the first member of a canonical object onto the parsed prefix keeps the two key sets apart. */
  lemma MembersTail(fields: seq<Member>, acc: seq<Member>)
    requires |fields| > 1 && CanonicalMembers(fields) && KeySet(acc) !! KeySet(fields)
    ensures CanonicalMembers(fields[1..])
    ensures KeySet(acc + [fields[0]]) !! KeySet(fields[1..])
  {
    var m := fields[0];
    assert fields == [m] + fields[1..];
    DistinctKeysCons(m, fields[1..]);
    assert KeySet(fields[1..]) <= KeySet(fields) by {
      forall x | x in fields[1..] ensures x in fields {
      }
    }
    assert KeySet(acc + [m]) == KeySet(acc) + {m.key};
    forall i | 0 <= i < |fields| - 1 ensures Canonical(fields[1..][i].value) {
      assert fields[1..][i] == fields[i + 1];
    }
  }

  // ---------------------------------------------------------------- JSON.parse(JSON.stringify(v))

  /** The text of a value `JSON.parse` could have produced parses back to that very value. */
  lemma DecodeEncode(v: Value)
    requires Canonical(v)
    ensures Decode(Encode(v)) == Some(v)
  {
    ParseEncoded(v, []);
    assert Encode(v) + [] == Encode(v);
  }

  /** Leaving out `undefined` keeps what `JSON.parse` can produce: defined, stringifiable, distinct keys. */
  lemma {:induction false} CanonCanonical(v: Value)
    requires Stringifiable(v) && WellFormed(v)
    ensures Canonical(Canon(v))
    decreases v, 1
  {
    match v
    case Arr(items) =>
      CanonElementsCanonical(items);
      CanonicalArr(CanonElements(items));
    case Obj(fields) =>
      CanonMembersCanonical(fields);
      CanonicalObj(CanonMembers(fields));
    case _ =>
  }

  lemma {:induction false} CanonElementsCanonical(items: seq<Value>)
    requires forall i :: 0 <= i < |items| ==> Stringifiable(items[i]) && WellFormed(items[i])
    ensures CanonicalItems(CanonElements(items))
    decreases items, 0
  {
    if items != [] {
      CanonCanonical(items[0]);
      CanonElementsCanonical(items[1..]);
      var r := CanonElements(items);
      assert r == [Canon(items[0])] + CanonElements(items[1..]);
      forall i | 0 <= i < |r| ensures Canonical(r[i]) {
        if i > 0 {
          assert r[i] == CanonElements(items[1..])[i - 1];
        }
      }
    }
  }

  lemma {:induction false} CanonMembersCanonical(fields: seq<Member>)
    requires DistinctKeys(fields)
    requires forall i :: 0 <= i < |fields| ==> Stringifiable(fields[i].value) && WellFormed(fields[i].value)
    ensures CanonicalMembers(CanonMembers(fields))
    ensures KeySet(CanonMembers(fields)) <= KeySet(fields)
    decreases fields, 0
  {
    if fields != [] {
      var m := fields[0];
      var tail := fields[1..];
      assert fields == [m] + tail;
      DistinctKeysCons(m, tail);
      CanonMembersCanonical(tail);
      var rt := CanonMembers(tail);
      assert KeySet(tail) <= KeySet(fields) by {
        forall x | x in tail ensures x in fields {
        }
      }
      if !m.value.Undefined? {
        CanonCanonical(m.value);
        var c := Member(m.key, Canon(m.value));
        var r := [c] + rt;
        assert m in fields;
        DistinctKeysCons(c, rt);
        forall i | 0 <= i < |r| ensures Canonical(r[i].value) {
          if i > 0 {
            assert r[i] == rt[i - 1];
          }
        }
        assert KeySet(r) == {m.key} + KeySet(rt);
      }
    }
  }

  /** `undefined` inside a value and its omission or `null` write the same text. */
  lemma {:induction false} EncodeCanon(v: Value)
    requires Stringifiable(v)
    ensures Stringifiable(Canon(v))
    ensures Encode(Canon(v)) == Encode(v)
    decreases v, 1
  {
    match v
    case Arr(items) =>
      ElementTextsCanon(items);
    case Obj(fields) =>
      MemberTextsCanon(fields);
    case _ =>
  }

  lemma {:induction false} ElementTextsCanon(items: seq<Value>)
    requires forall i :: 0 <= i < |items| ==> Stringifiable(items[i])
    ensures forall i :: 0 <= i < |items| ==> Stringifiable(CanonElements(items)[i])
    ensures ElementTexts(CanonElements(items)) == ElementTexts(items)
    decreases items, 0
  {
    if items != [] {
      EncodeCanon(items[0]);
      ElementTextsCanon(items[1..]);
      var r := CanonElements(items);
      assert r == [Canon(items[0])] + CanonElements(items[1..]);
      assert forall i :: 0 < i < |r| ==> r[i] == CanonElements(items[1..])[i - 1];
      assert r[1..] == CanonElements(items[1..]);
    }
  }

  lemma {:induction false} MemberTextsCanon(fields: seq<Member>)
    requires forall i :: 0 <= i < |fields| ==> Stringifiable(fields[i].value)
    ensures forall i :: 0 <= i < |CanonMembers(fields)| ==> Stringifiable(CanonMembers(fields)[i].value)
    ensures MemberTexts(CanonMembers(fields)) == MemberTexts(fields)
    decreases fields, 0
  {
    if fields != [] {
      var m := fields[0];
      MemberTextsCanon(fields[1..]);
      var rt := CanonMembers(fields[1..]);
      if !m.value.Undefined? {
        EncodeCanon(m.value);
        var r := [Member(m.key, Canon(m.value))] + rt;
        assert forall i :: 0 < i < |r| ==> r[i] == rt[i - 1];
        assert r[1..] == rt;
        CanonNotUndefined(m.value);
      }
    }
  }

  lemma CanonNotUndefined(v: Value)
    requires Stringifiable(v) && !v.Undefined?
    ensures !Canon(v).Undefined?
  {
  }

  /**
    `JSON.parse(JSON.stringify(v))`: every value without cycles reads back as
    itself, except that `undefined` array elements come back as `null` and
    `undefined` properties are gone.
  */
  lemma RoundTrip(v: Value)
    requires Stringifiable(v) && WellFormed(v) && !v.Undefined?
    ensures Decode(Encode(v)) == Some(Canon(v))
  {
    CanonCanonical(v);
    EncodeCanon(v);
    DecodeEncode(Canon(v));
  }

  /** A value `JSON.parse` produced is left alone by the normalisation. */
  lemma {:induction false} CanonOfCanonical(v: Value)
    requires Canonical(v)
    ensures Canon(v) == v
    decreases v, 1
  {
    match v
    case Arr(items) =>
      CanonicalArr(items);
      CanonElementsOfCanonical(items);
    case Obj(fields) =>
      CanonicalObj(fields);
      CanonMembersOfCanonical(fields);
    case _ =>
  }

  lemma {:induction false} CanonElementsOfCanonical(items: seq<Value>)
    requires CanonicalItems(items)
    ensures CanonElements(items) == items
    decreases items, 0
  {
    if items != [] {
      CanonOfCanonical(items[0]);
      assert CanonicalItems(items[1..]) by {
        assert forall i :: 0 <= i < |items| - 1 ==> items[1..][i] == items[i + 1];
      }
      CanonElementsOfCanonical(items[1..]);
      assert [items[0]] + items[1..] == items;
    }
  }

  lemma {:induction false} CanonMembersOfCanonical(fields: seq<Member>)
    requires CanonicalMembers(fields)
    ensures CanonMembers(fields) == fields
    decreases fields, 0
  {
    if fields != [] {
      CanonOfCanonical(fields[0].value);
      assert [fields[0]] + fields[1..] == fields;
      DistinctKeysCons(fields[0], fields[1..]);
      assert forall i :: 0 <= i < |fields| - 1 ==> fields[1..][i] == fields[i + 1];
      CanonMembersOfCanonical(fields[1..]);
      assert [fields[0]] + fields[1..] == fields;
    }
  }
}
