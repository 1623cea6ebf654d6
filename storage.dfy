/**
  The browser build of the wrapper (lib/storage.js): `window.storage`, a thin
  layer over `localStorage` that writes every value as JSON text, reads every
  item back through `JSON.parse`, offers each operation in a synchronous and a
  callback form plus the multi-key forms, and estimates the space used.

  Deferred work (`setTimeout`/`setInterval` with no delay) runs in the order
  it was scheduled, so each callback form is modelled by its effect on the
  store together with what became of the caller's callback.
*/
module Storage {
  import opened JsValue
  import opened Json
  import opened Optional
  import opened WebStorage
  import opened Codec

  /**
    `stringifyIfPossible(v)`: `JSON.stringify(v)`. It gives no text for a bare
    `undefined` (the value itself goes on) and throws on a cyclic value, in
    which case the value goes on unchanged.
  */
  function StringifyIfPossible(v: Value): (r: Stringified)
    ensures r.Encoded? <==> Stringifiable(v) && !v.Undefined?
    ensures r.Encoded? ==> r.json == Encode(v)
    ensures r.PassedOn? ==> r.value == v
  {
    if v.Undefined? || !Stringifiable(v) then PassedOn(v) else Encoded(Encode(v))
  }

  /** The text `setSync(key, v)` leaves in the store. */
  function Stored(v: Value): string
  {
    StoredText(StringifyIfPossible(v))
  }

  /** The entries `setMulti(keyValue)` writes, one per own property, in key order. */
  function Entries(keyValue: seq<Member>): (r: seq<(string, string)>)
    ensures |r| == |keyValue|
    ensures forall i :: 0 <= i < |r| ==> r[i] == (keyValue[i].key, Stored(keyValue[i].value))
  {
    seq(|keyValue|, i requires 0 <= i < |keyValue| => (keyValue[i].key, Stored(keyValue[i].value)))
  }

  /** `values[i]` in JavaScript: `undefined` past the end. */
  function ValueAt(values: seq<Value>, i: nat): (r: Value)
    ensures i < |values| ==> r == values[i]
    ensures i >= |values| ==> r.Undefined?
  {
    if i < |values| then values[i] else Undefined
  }

  /** `window.storage`. */
  class Storage {
    /** `defaultStorage`: the host store the wrapper works on. */
    const backing: Store

    constructor(backing: Store)
      ensures this.backing == backing
    {
      this.backing := backing;
    }

    /** `setSync(key, value)`: the entry for `key` becomes the JSON text of `value`. */
    method SetSync(key: string, value: Value)
      modifies backing
      ensures backing.items == old(backing.items)[key := Stored(value)]
    {
      backing.SetItem(key, StoredText(StringifyIfPossible(value)));
    }

    /** `set(key, value, callback)`: the same write; the callback is called only when one was given. */
    method Set(key: string, value: Value, hasCallback: bool) returns (cb: Callback)
      modifies backing
      ensures backing.items == old(backing.items)[key := Stored(value)]
      ensures cb == if hasCallback then Fired else Skipped
    {
      var text := StoredText(StringifyIfPossible(value));
      backing.SetItem(key, text);
      if hasCallback {
        cb := Fired;
      } else {
        cb := Skipped;
      }
    }

    /** `getSync(key)`: the stored text parsed as JSON where it can be, `null` for an absent key. */
    method GetSync(key: string) returns (r: Value)
      ensures r == ReadBack(backing.items, key)
    {
      var item := backing.GetItem(key);
      r := Returned(ParseIfPossible(ItemValue(item)));
    }

    /**
      `get(key, callback)`: the callback receives what `getSync(key)` returns.
      It is called without a check, so a missing callback throws.
    */
    method Get(key: string, hasCallback: bool) returns (value: Value, cb: Callback)
      ensures value == ReadBack(backing.items, key)
      ensures cb == if hasCallback then Fired else Threw
    {
      var item := backing.GetItem(key);
      value := Returned(ParseIfPossible(ItemValue(item)));
      if hasCallback {
        cb := Fired;
      } else {
        cb := Threw;
      }
    }

    /** `removeSync(key)`: the entry for `key` is gone. */
    method RemoveSync(key: string)
      modifies backing
      ensures backing.items == old(backing.items) - {key}
    {
      backing.RemoveItem(key);
    }

    /** `remove(key, callback)`: the same removal; the callback is called without a check. */
    method Remove(key: string, hasCallback: bool) returns (cb: Callback)
      modifies backing
      ensures backing.items == old(backing.items) - {key}
      ensures cb == if hasCallback then Fired else Threw
    {
      backing.RemoveItem(key);
      if hasCallback {
        cb := Fired;
      } else {
        cb := Threw;
      }
    }

    /**
      `setMulti(keyValue, callback)`: `set` for each own property in turn, each
      completion counted; once the count reaches the number of keys (at once
      for an empty object) the callback is called if one was given.
    */
    method SetMulti(keyValue: seq<Member>, hasCallback: bool) returns (counter: nat, cb: Callback)
      modifies backing
      ensures backing.items == SetEach(old(backing.items), Entries(keyValue))
      ensures counter == |keyValue|
      ensures cb == if hasCallback then Fired else Skipped
    {
      var start := backing.items;
      counter := 0;
      var i := 0;
      while i < |keyValue|
        invariant 0 <= i <= |keyValue| && counter == i
        invariant backing.items == SetEach(start, Entries(keyValue[..i]))
      {
        var e := (keyValue[i].key, Stored(keyValue[i].value));
        assert Entries(keyValue[..i + 1]) == Entries(keyValue[..i]) + [e];
        SetEachAppend(start, Entries(keyValue[..i]), e);
        var done := Set(keyValue[i].key, keyValue[i].value, true);
        counter := counter + 1;
        i := i + 1;
      }
      assert keyValue[..i] == keyValue;
      if hasCallback {
        cb := Fired;
      } else {
        cb := Skipped;
      }
    }

    /**
      `getMulti(keys, callback)` as written: `get` for each key, and the value
      `get` delivers is run through `parseIfPossible` a second time before it
      is kept. The callback receives the values once there is one per key; it
      is called without a check.
    */
    method GetMultiAsWritten(keys: seq<string>, hasCallback: bool) returns (values: seq<Value>, cb: Callback)
      ensures |values| == |keys|
      ensures forall i :: 0 <= i < |keys| ==> values[i] == Reparsed(backing.items, keys[i])
      ensures cb == if hasCallback then Fired else Threw
    {
      ghost var m := backing.items;
      ghost var expected := seq(|keys|, j requires 0 <= j < |keys| => Reparsed(m, keys[j]));
      values := [];
      for i := 0 to |keys|
        invariant values == expected[..i]
      {
        var value, _ := Get(keys[i], true);
        PrefixNext(expected, i);
        values := values + [Returned(ParseIfPossible(value))];
      }
      assert expected[..|keys|] == expected;
      if hasCallback {
        cb := Fired;
      } else {
        cb := Threw;
      }
    }

    /** `getMulti` keeping each value as `get` delivers it: one `getSync` result per key. */
    method GetMulti(keys: seq<string>, hasCallback: bool) returns (values: seq<Value>, cb: Callback)
      ensures |values| == |keys|
      ensures forall i :: 0 <= i < |keys| ==> values[i] == ReadBack(backing.items, keys[i])
      ensures cb == if hasCallback then Fired else Threw
    {
      ghost var m := backing.items;
      ghost var expected := seq(|keys|, j requires 0 <= j < |keys| => ReadBack(m, keys[j]));
      values := [];
      for i := 0 to |keys|
        invariant values == expected[..i]
      {
        var value, _ := Get(keys[i], true);
        PrefixNext(expected, i);
        values := values + [value];
      }
      assert expected[..|keys|] == expected;
      if hasCallback {
        cb := Fired;
      } else {
        cb := Threw;
      }
    }

    /**
      `removeMulti(keys, callback)`: `remove` for each key, each completion
      counted; once the count reaches the number of keys the callback is
      called without a check.
    */
    method RemoveMulti(keys: seq<string>, hasCallback: bool) returns (counter: nat, cb: Callback)
      modifies backing
      ensures backing.items == old(backing.items) - KeysIn(keys)
      ensures counter == |keys|
      ensures cb == if hasCallback then Fired else Threw
    {
      var start := backing.items;
      counter := 0;
      var i := 0;
      while i < |keys|
        invariant 0 <= i <= |keys| && counter == i
        invariant backing.items == start - KeysIn(keys[..i])
      {
        assert keys[..i + 1] == keys[..i] + [keys[i]];
      assert KeysIn(keys[..i + 1]) == KeysIn(keys[..i]) + {keys[i]};
        var done := Remove(keys[i], true);
        counter := counter + 1;
        i := i + 1;
      }
      assert keys[..i] == keys;
      if hasCallback {
        cb := Fired;
      } else {
        cb := Threw;
      }
    }

    /**
      `size()`: the length of all keys joined plus the length of all stored
      texts joined, that is the UTF-16 length of every key and text summed.
    */
    method Size() returns (n: nat)
      ensures n == Footprint(backing.items)
    {
      var keys := backing.Keys();
      var values: seq<string> := [];
      var i := 0;
      while i < |keys|
        invariant 0 <= i <= |keys| && |values| == i
        invariant forall j :: 0 <= j < i ==> keys[j] in backing.items && values[j] == backing.items[keys[j]]
      {
        var value := backing.GetItem(keys[i]);
        values := values + [value.value];
        i := i + 1;
      }
      n := Utf16Length(Concat(keys)) + Utf16Length(Concat(values));
      FootprintOfFetched(keys, values, backing.items);
    }

    /** `left()`: the assumed capacity less what `size()` counts; negative once the estimate is exceeded. */
    method Left() returns (r: int)
      ensures r + Footprint(backing.items) == MAX_SIZE
    {
      var used := Size();
      r := MAX_SIZE - used;
    }
  }

  /**
    `constructKeyValue(keys, values)` inside `forEach`: an object with
    `keyValue[keys[i]] = values[i]` for each `i` in turn, so a repeated key
    keeps its last value and a key past the end of `values` gets `undefined`.
  */
  method ConstructKeyValue(keys: seq<string>, values: seq<Value>) returns (keyValue: seq<Member>)
    ensures DistinctKeys(keyValue)
    ensures KeySet(keyValue) == KeysIn(keys)
    ensures forall i :: 0 <= i < |keys| && (forall l :: i < l < |keys| ==> keys[l] != keys[i]) ==>
      Member(keys[i], ValueAt(values, i)) in keyValue
  {
    keyValue := [];
    for i := 0 to |keys|
      invariant DistinctKeys(keyValue)
      invariant KeySet(keyValue) == KeysIn(keys[..i])
      invariant forall j :: 0 <= j < i && (forall l :: j < l < i ==> keys[l] != keys[j]) ==>
        Member(keys[j], ValueAt(values, j)) in keyValue
    {
      assert keys[..i + 1] == keys[..i] + [keys[i]];
      assert KeysIn(keys[..i + 1]) == KeysIn(keys[..i]) + {keys[i]};
      UpsertDistinct(keyValue, keys[i], ValueAt(values, i));
      keyValue := Upsert(keyValue, keys[i], ValueAt(values, i));
    }
    assert keys[..|keys|] == keys;
  }

  /**
    Loading the script: `storage.works` is whether the browser offers the
    store. When it does not, `parseSettings` sets `storage` to `undefined` and
    the next assignment to one of its members throws, so no `window.storage`
    is published.
  */
  method Load(works: bool, backing: Store) returns (storage: Option<Storage>)
    ensures storage.Some? <==> works
    ensures storage.Some? ==> storage.value.backing == backing
  {
    if works {
      var s := new Storage(backing);
      storage := Some(s);
    } else {
      storage := None;
    }
  }

  // ---------------------------------------------------------------- reading back what was written

  /** A value written with `setSync` reads back as `JSON.parse(JSON.stringify(value))`. */
  lemma SetThenGet(m: map<string, string>, key: string, v: Value)
    requires Stringifiable(v) && WellFormed(v) && !v.Undefined?
    ensures ReadBack(m[key := Stored(v)], key) == Canon(v)
  {
    RoundTrip(v);
  }

  /** A value that is already what `JSON.parse` produces reads back as itself. */
  lemma SetThenGetCanonical(m: map<string, string>, key: string, v: Value)
    requires Canonical(v)
    ensures ReadBack(m[key := Stored(v)], key) == v
  {
    SetThenGet(m, key, v);
    CanonOfCanonical(v);
  }

  /** Strings are written as JSON string literals, so a string always reads back as that same string. */
  lemma SetThenGetString(m: map<string, string>, key: string, s: string)
    ensures Stored(Str(s)) == Quote(s)
    ensures ReadBack(m[key := Stored(Str(s))], key) == Str(s)
  {
    SetThenGet(m, key, Str(s));
  }

  /** `undefined` is stored as the text "undefined", which is not JSON, so it reads back as that string. */
  lemma SetThenGetUndefined(m: map<string, string>, key: string)
    ensures Stored(Undefined) == "undefined"
    ensures ReadBack(m[key := Stored(Undefined)], key) == Str("undefined")
  {
    UndefinedIsNotJson();
  }

  lemma UndefinedIsNotJson()
    ensures Decode("undefined") == None
  {
    assert SkipWhitespace("undefined") == "undefined";
  }

  /**
    After `setMulti` on an object (whose keys are distinct) each of its
    properties reads back from its own key, and every other key keeps its entry.
  */
  lemma SetMultiStoresEach(m: map<string, string>, keyValue: seq<Member>, i: nat)
    requires DistinctKeys(keyValue) && i < |keyValue|
    ensures keyValue[i].key in SetEach(m, Entries(keyValue))
    ensures SetEach(m, Entries(keyValue))[keyValue[i].key] == Stored(keyValue[i].value)
  {
    SetEachLast(m, Entries(keyValue), i);
  }

  lemma SetMultiKeepsOthers(m: map<string, string>, keyValue: seq<Member>, key: string)
    requires key !in KeySet(keyValue)
    ensures key in SetEach(m, Entries(keyValue)) <==> key in m
    ensures key in m ==> SetEach(m, Entries(keyValue))[key] == m[key]
  {
    forall i | 0 <= i < |keyValue|
      ensures Entries(keyValue)[i].0 != key
    {
      assert keyValue[i] in keyValue;
    }
    SetEachUntouched(m, Entries(keyValue), key);
  }

  /**
    The second parse in `getMulti` as written: the string "42", written with
    `setSync`, reads back from `getSync` as that string but from `getMulti` as
    the number 42.
  */
  lemma GetMultiReparses(key: string)
    ensures ReadBack(map[key := Stored(Str("42"))], key) == Str("42")
    ensures Reparsed(map[key := Stored(Str("42"))], key) == Num(42)
  {
    SetThenGetString(map[], key, "42");
    QuotedFortyTwo();
  }
}
