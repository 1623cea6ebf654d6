/**
  The copy of the wrapper served to the test site
  (test/public/javascripts/storey.js, published as `window.storey`). It keeps
  the API of the browser build but stores strings as they are, adds `clear`,
  reports `size` and `left` through callbacks, and counts completions inside
  the callbacks of the multi-key operations.

  Its `async` helper calls the callback inside the same `try` as the store
  operation and, when anything there throws, calls the callback a second time
  with the error. A TypeError from a missing callback is therefore handed back
  to the wrapper's own function: for `get` it escapes, for the collecting
  callbacks of `getMulti` and `size` it is absorbed and nothing is reported.
*/
module Storey {
  import opened JsValue
  import opened Json
  import opened Optional
  import opened WebStorage
  import opened Codec

  /**
    `stringifyIfPossible(v)`: a string goes on as it is; anything else is
    `JSON.stringify(v)`, which gives no text for `undefined` and throws on a
    cyclic value, and in both cases the value goes on unchanged.
  */
  function StringifyIfPossible(v: Value): (r: Stringified)
    ensures r.PassedOn? <==> v.Str? || v.Undefined? || !Stringifiable(v)
    ensures r.PassedOn? ==> r.value == v
    ensures r.Encoded? ==> r.json == Encode(v)
  {
    if v.Str? || v.Undefined? || !Stringifiable(v) then PassedOn(v) else Encoded(Encode(v))
  }

  /** The text `setSync(key, v)` leaves in the store. */
  function Stored(v: Value): string
  {
    StoredText(StringifyIfPossible(v))
  }

  /** What a callback that fires when a count reaches `total` has done after `count` completions. */
  function CallsAt(count: nat, total: nat, hasCallback: bool): nat
  {
    if hasCallback && 0 < count == total then 1 else 0
  }

  /** `window.storey`. */
  class Storey {
    /** `defaultStorage`: the host store the wrapper works on. */
    const backing: Store

    constructor(backing: Store)
      ensures this.backing == backing
    {
      this.backing := backing;
    }

    /** `setSync(key, value)`: a string is stored as it is, anything else as its JSON text. */
    method SetSync(key: string, value: Value)
      modifies backing
      ensures backing.items == old(backing.items)[key := Stored(value)]
    {
      backing.SetItem(key, StoredText(StringifyIfPossible(value)));
    }

    /** `set(key, value, callback)`: the same write; the callback is called only when it is a function. */
    method Set(key: string, value: Value, hasCallback: bool) returns (cb: Callback)
      modifies backing
      ensures backing.items == old(backing.items)[key := Stored(value)]
      ensures cb == if hasCallback then Fired else Skipped
    {
      var text := StoredText(StringifyIfPossible(value));
      backing.SetItem(key, text);
      if hasCallback {
        cb := Fired;
      } else {
        cb := Skipped;
      }
    }

    /** `getSync(key)`: the stored text parsed as JSON where it can be, `null` for an absent key. */
    method GetSync(key: string) returns (r: Value)
      ensures r == ReadBack(backing.items, key)
    {
      var item := backing.GetItem(key);
      r := Returned(ParseIfPossible(ItemValue(item)));
    }

    /**
      `get(key, callback)` (also published as `has`): the callback receives
      what `getSync(key)` returns. A missing callback throws, is called again
      with the error, and that second TypeError escapes.
    */
    method Get(key: string, hasCallback: bool) returns (value: Value, cb: Callback)
      ensures value == ReadBack(backing.items, key)
      ensures cb == if hasCallback then Fired else Threw
    {
      var item := backing.GetItem(key);
      value := Returned(ParseIfPossible(ItemValue(item)));
      if hasCallback {
        cb := Fired;
      } else {
        cb := Threw;
      }
    }

    /** `removeSync(key)`: the entry for `key` is gone. */
    method RemoveSync(key: string)
      modifies backing
      ensures backing.items == old(backing.items) - {key}
    {
      backing.RemoveItem(key);
    }

    /** `remove(key, callback)`: the same removal; the callback is called only when it is a function. */
    method Remove(key: string, hasCallback: bool) returns (cb: Callback)
      modifies backing
      ensures backing.items == old(backing.items) - {key}
      ensures cb == if hasCallback then Fired else Skipped
    {
      backing.RemoveItem(key);
      if hasCallback {
        cb := Fired;
      } else {
        cb := Skipped;
      }
    }

    /** `clear(callback)`: the store is empty; the callback is called only when it is a function. */
    method Clear(hasCallback: bool) returns (cb: Callback)
      modifies backing
      ensures backing.items == map[]
      ensures cb == if hasCallback then Fired else Skipped
    {
      backing.Clear();
      if hasCallback {
        cb := Fired;
      } else {
        cb := Skipped;
      }
    }

    /**
      `setMulti(keyValue, callback)`: `set` for each own property in turn; each
      completion bumps the counter and the one that brings it to the number of
      keys calls the callback. An empty object never calls it.
    */
    method SetMulti(keyValue: seq<Member>, hasCallback: bool) returns (calls: nat)
      modifies backing
      ensures backing.items == SetEach(old(backing.items), Entries(keyValue))
      ensures calls == if hasCallback && |keyValue| > 0 then 1 else 0
    {
      var start := backing.items;
      var counter := 0;
      calls := 0;
      while counter < |keyValue|
        invariant 0 <= counter <= |keyValue|
        invariant backing.items == SetEach(start, Entries(keyValue[..counter]))
        invariant calls == CallsAt(counter, |keyValue|, hasCallback)
      {
        var e := (keyValue[counter].key, Stored(keyValue[counter].value));
        assert Entries(keyValue[..counter + 1]) == Entries(keyValue[..counter]) + [e];
        SetEachAppend(start, Entries(keyValue[..counter]), e);
        var done := Set(keyValue[counter].key, keyValue[counter].value, true);
        counter := counter + 1;
        if counter == |keyValue| && hasCallback {
          calls := calls + 1;
        }
      }
      assert keyValue[..counter] == keyValue;
    }

    /**
      `getMulti(keys, callback)` as written: `get` for each key, each value it
      delivers parsed a second time and collected; the value that completes
      the collection calls the callback with the whole array, so it is called
      `calls` times with `values`. No keys, no call; a missing callback is
      absorbed.
    */
    method GetMultiAsWritten(keys: seq<string>, hasCallback: bool) returns (values: seq<Value>, calls: nat)
      ensures |values| == |keys|
      ensures forall i :: 0 <= i < |keys| ==> values[i] == Reparsed(backing.items, keys[i])
      ensures calls == if hasCallback && |keys| > 0 then 1 else 0
    {
      ghost var m := backing.items;
      ghost var expected := seq(|keys|, j requires 0 <= j < |keys| => Reparsed(m, keys[j]));
      values := [];
      calls := 0;
      for i := 0 to |keys|
        invariant values == expected[..i]
        invariant calls == CallsAt(i, |keys|, hasCallback)
      {
        var value, _ := Get(keys[i], true);
        PrefixNext(expected, i);
        values := values + [Returned(ParseIfPossible(value))];
        if |values| == |keys| && hasCallback {
          calls := calls + 1;
        }
      }
      assert expected[..|keys|] == expected;
    }

    /** `getMulti` collecting each value as `get` delivers it: one `getSync` result per key. */
    method GetMulti(keys: seq<string>, hasCallback: bool) returns (values: seq<Value>, calls: nat)
      ensures |values| == |keys|
      ensures forall i :: 0 <= i < |keys| ==> values[i] == ReadBack(backing.items, keys[i])
      ensures calls == if hasCallback && |keys| > 0 then 1 else 0
    {
      ghost var m := backing.items;
      ghost var expected := seq(|keys|, j requires 0 <= j < |keys| => ReadBack(m, keys[j]));
      values := [];
      calls := 0;
      for i := 0 to |keys|
        invariant values == expected[..i]
        invariant calls == CallsAt(i, |keys|, hasCallback)
      {
        var value, _ := Get(keys[i], true);
        PrefixNext(expected, i);
        values := values + [value];
        if |values| == |keys| && hasCallback {
          calls := calls + 1;
        }
      }
      assert expected[..|keys|] == expected;
    }

    /**
      `removeMulti(keys, callback)`: `remove` for each key; the completion that
      brings the counter to the number of keys calls the callback. No keys, no call.
    */
    method RemoveMulti(keys: seq<string>, hasCallback: bool) returns (calls: nat)
      modifies backing
      ensures backing.items == old(backing.items) - KeysIn(keys)
      ensures calls == if hasCallback && |keys| > 0 then 1 else 0
    {
      var start := backing.items;
      var counter := 0;
      calls := 0;
      while counter < |keys|
        invariant 0 <= counter <= |keys|
        invariant backing.items == start - KeysIn(keys[..counter])
        invariant calls == CallsAt(counter, |keys|, hasCallback)
      {
        assert keys[..counter + 1] == keys[..counter] + [keys[counter]];
        assert KeysIn(keys[..counter + 1]) == KeysIn(keys[..counter]) + {keys[counter]};
        var done := Remove(keys[counter], true);
        counter := counter + 1;
        if counter == |keys| && hasCallback {
          calls := calls + 1;
        }
      }
      assert keys[..counter] == keys;
    }

    /**
      `size(callback)`: each stored text is fetched in turn and, once all are
      in, the callback receives the length of the keys joined plus the length
      of the texts joined. An empty store never reports.
    */
    method Size(hasCallback: bool) returns (reports: seq<int>)
      ensures reports == if hasCallback && backing.items != map[] then [Footprint(backing.items)] else []
    {
      var keys := backing.Keys();
      var keysLength: nat := Utf16Length(Concat(keys));
      var values: seq<string> := [];
      var complete := false;
      for i := 0 to |keys|
        invariant |values| == i
        invariant forall j :: 0 <= j < i ==> keys[j] in backing.items && values[j] == backing.items[keys[j]]
        invariant complete <==> hasCallback && 0 < i == |keys|
      {
        var value := backing.GetItem(keys[i]);
        values := values + [value.value];
        if |values| == |keys| && hasCallback {
          complete := true;
        }
      }
      // the callback of the fetch that completed the values reports their joined length
      EnumeratesEmpty(keys, backing.items);
      assert complete <==> hasCallback && backing.items != map[];
      if complete {
        var size := keysLength + Utf16Length(Concat(values));
        FootprintOfFetched(keys, values, backing.items);
        assert size == Footprint(backing.items);
        reports := [size];
      } else {
        reports := [];
      }
    }

    /**
      `left(callback)`: `size` with a callback that passes on the assumed
      capacity less the size. A missing callback is absorbed like the one of
      `getMulti`.
    */
    method Left(hasCallback: bool) returns (reports: seq<int>)
      ensures reports == if hasCallback && backing.items != map[] then [MAX_SIZE - Footprint(backing.items)] else []
    {
      var sizes := Size(true);
      reports := [];
      if |sizes| == 1 && hasCallback {
        reports := [MAX_SIZE - sizes[0]];
      }
    }
  }

  /** The entries `setMulti(keyValue)` writes, one per own property, in key order. */
  function Entries(keyValue: seq<Member>): (r: seq<(string, string)>)
    ensures |r| == |keyValue|
    ensures forall i :: 0 <= i < |r| ==> r[i] == (keyValue[i].key, Stored(keyValue[i].value))
  {
    seq(|keyValue|, i requires 0 <= i < |keyValue| => (keyValue[i].key, Stored(keyValue[i].value)))
  }

  /** Loading the script: without a usable store `storage` becomes `undefined` and no `window.storey` is published. */
  method Load(works: bool, backing: Store) returns (storey: Option<Storey>)
    ensures storey.Some? <==> works
    ensures storey.Some? ==> storey.value.backing == backing
  {
    if works {
      var s := new Storey(backing);
      storey := Some(s);
    } else {
      storey := None;
    }
  }

  // ---------------------------------------------------------------- reading back what was written

  /**
    A string is stored as it is, so it comes back unchanged exactly when it is
    not JSON text; JSON-looking strings come back parsed.
  */
  lemma SetThenGetString(m: map<string, string>, key: string, s: string)
    ensures Stored(Str(s)) == s
    ensures ReadBack(m[key := Stored(Str(s))], key) == Str(s) <==> Decode(s).None?
  {
    ParseStringChanges(s);
  }

  /** The string "42" is stored as the text 42 and reads back as the number 42. */
  lemma SetThenGetFortyTwo(m: map<string, string>, key: string)
    ensures ReadBack(m[key := Stored(Str("42"))], key) == Num(42)
  {
    QuotedFortyTwo();
  }

  /** Any value other than a string or `undefined` reads back as `JSON.parse(JSON.stringify(value))`. */
  lemma SetThenGet(m: map<string, string>, key: string, v: Value)
    requires Stringifiable(v) && WellFormed(v) && !v.Undefined? && !v.Str?
    ensures ReadBack(m[key := Stored(v)], key) == Canon(v)
  {
    RoundTrip(v);
  }

  /** A value that is already what `JSON.parse` produces, and not a string, reads back as itself. */
  lemma SetThenGetCanonical(m: map<string, string>, key: string, v: Value)
    requires Canonical(v) && !v.Str?
    ensures ReadBack(m[key := Stored(v)], key) == v
  {
    SetThenGet(m, key, v);
    CanonOfCanonical(v);
  }

  /**
    The second parse in `getMulti` as written: the array `[7]`, written with
    `setSync`, reads back from `getSync` as that array but from `getMulti` as
    the number 7, because `String([7])` is the text 7.
  */
  lemma GetMultiReparses(key: string)
    ensures ReadBack(map[key := Stored(Arr([Num(7)]))], key) == Arr([Num(7)])
    ensures Reparsed(map[key := Stored(Arr([Num(7)]))], key) == Num(7)
  {
    SetThenGetCanonical(map[], key, Arr([Num(7)]));
    assert ToString(Arr([Num(7)])) == "7";
    assert IntToDecimal(7) == "7";
    DecodeEncode(Num(7));
  }
}
