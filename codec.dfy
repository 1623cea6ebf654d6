/**
  The half of the wrapper's codec that both copies share, `parseIfPossible`,
  with the shapes of what it and `stringifyIfPossible` return, what
  `getItem`/`setItem` make of those, and what became of a caller's callback.
*/
module Codec {
  import opened JsValue
  import opened Json
  import opened Optional
  import opened WebStorage

  /** The room a store is assumed to have ("5 MB"), compared with summed string lengths. */
  const MAX_SIZE: int := 1024 * 1024 * 5

  /** What became of the callback a caller passed. */
  datatype Callback =
    | Fired     // it was called
    | Skipped   // there was none and the wrapper checked before calling
    | Threw     // there was none, the wrapper called it anyway and a TypeError escaped

  /** What `stringifyIfPossible` returns: JSON text, or a value that is not JSON text. */
  datatype Stringified =
    | Encoded(json: string)
    | PassedOn(value: Value)    // a string left as it is, `undefined`, or the input JSON.stringify threw on

  /** What `setItem` stores for it: the text itself, or `String()` of the value. */
  function StoredText(s: Stringified): string
  {
    match s
    case Encoded(json) => json
    case PassedOn(v) => ToString(v)
  }

  /** What `parseIfPossible(x)` returns: the parsed value, or `x` unchanged when `JSON.parse` throws. */
  datatype ParseOutcome = Parsed(value: Value) | Raw(original: Value)

  /** The value behind an outcome, as the caller receives it. */
  function Returned(r: ParseOutcome): Value
  {
    match r
    case Parsed(v) => v
    case Raw(x) => x
  }

  /**
    `parseIfPossible(x)`: `JSON.parse` reads `String(x)`; when that is not
    JSON text it throws and `x` comes back unchanged. Never throws itself.
  */
  function ParseIfPossible(x: Value): (r: ParseOutcome)
    ensures r.Parsed? <==> Decode(ToString(x)).Some?
    ensures r.Parsed? ==> Decode(ToString(x)) == Some(r.value)
    ensures r.Raw? ==> r.original == x
  {
    match Decode(ToString(x))
    case Some(v) => Parsed(v)
    case None => Raw(x)
  }

  /** What `parseIfPossible` parses is JSON data: stringifying it and parsing again gives it back. */
  lemma ParsedIsJson(x: Value)
    ensures ParseIfPossible(x).Parsed? ==> Canonical(ParseIfPossible(x).value)
    ensures ParseIfPossible(x).Parsed? ==>
      Decode(Encode(ParseIfPossible(x).value)) == Some(ParseIfPossible(x).value)
  {
    if ParseIfPossible(x).Parsed? {
      DecodeEncode(ParseIfPossible(x).value);
    }
  }

  /** `getItem(key)` as a JavaScript value: the stored text, or `null`. */
  function ItemValue(item: Option<string>): (r: Value)
    ensures r.Null? <==> item.None?
    ensures item.Some? ==> r == Str(item.value)
  {
    match item
    case Some(text) => Str(text)
    case None => Null
  }

  /** What `getSync(key)` (and the value `get` passes on) is for a store holding `m`. */
  function ReadBack(m: map<string, string>, key: string): (r: Value)
    ensures key !in m ==> r == Null
    ensures key in m && Decode(m[key]).Some? ==> r == Decode(m[key]).value
    ensures key in m && Decode(m[key]).None? ==> r == Str(m[key])
  {
    var item := Lookup(m, key);
    NullReadsBack();
    Returned(ParseIfPossible(ItemValue(item)))
  }

  /** `JSON.parse(null)` reads the text "null" and gives `null`: an absent key reads back as `null`. */
  lemma NullReadsBack()
    ensures ParseIfPossible(Null) == Parsed(Null)
  {
    DecodeEncode(Null);
  }

  /** Text that is the JSON of a value parses back to that value. */
  lemma ParseEncodedText(v: Value)
    requires Canonical(v)
    ensures ParseIfPossible(Str(Encode(v))) == Parsed(v)
  {
    DecodeEncode(v);
  }

  /** A string comes back from `parseIfPossible` as itself exactly when it is not JSON text: a JSON string literal is longer than the string it denotes. */
  lemma ParseStringChanges(s: string)
    ensures Returned(ParseIfPossible(Str(s))) == Str(s) <==> Decode(s).None?
  {
    match Decode(s)
    case Some(v) =>
      if v.Str? {
        assert |v.s| < |s|;
      }
    case None =>
  }

  /** The value a second `parseIfPossible` makes of what `getSync` returned. */
  function Reparsed(m: map<string, string>, key: string): Value
  {
    Returned(ParseIfPossible(ReadBack(m, key)))
  }

  /**
    Reading a number, a boolean or `null` a second time gives it back: for
    these `String(v)` is their JSON text.
  */
  lemma ReparsedScalar(m: map<string, string>, key: string)
    requires ReadBack(m, key).Num? || ReadBack(m, key).Bool? || ReadBack(m, key).Null?
    ensures Reparsed(m, key) == ReadBack(m, key)
  {
    var v := ReadBack(m, key);
    assert ToString(v) == Encode(v);
    DecodeEncode(v);
  }

  /** The JSON text `"42"` (with its quotes) is the string 42, and reading that string again gives the number 42. */
  lemma QuotedFortyTwo()
    ensures Decode(Quote("42")) == Some(Str("42"))
    ensures Decode("42") == Some(Num(42))
  {
    DecodeEncode(Str("42"));
    assert IntToDecimal(42) == "42" by {
      assert NatToDecimal(42) == NatToDecimal(4) + [Digit(2)];
    }
    DecodeEncode(Num(42));
  }
}
