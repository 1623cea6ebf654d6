/**
  The browser's `localStorage` as the wrapper sees it: a string-keyed map of
  strings with `getItem`, `setItem`, `removeItem`, `clear` and the key
  enumeration `Object.keys(localStorage)`, and the space its entries take,
  counted in UTF-16 code units as JavaScript's `.length` counts them.
*/
module WebStorage {
  import opened JsValue
  import opened Optional

  /** The host store. `items` is everything it holds. */
  class Store {
    var items: map<string, string>

    constructor(initial: map<string, string>)
      ensures items == initial
    {
      items := initial;
    }

    /** `getItem(key)`: the stored text, or nothing (`null`) when the key is absent. */
    method GetItem(key: string) returns (r: Option<string>)
      ensures r == Lookup(items, key)
    {
      if key in items {
        r := Some(items[key]);
      } else {
        r := None;
      }
    }

    /** `setItem(key, text)`: the entry for `key` becomes `text`, nothing else changes. */
    method SetItem(key: string, text: string)
      modifies this
      ensures items == old(items)[key := text]
    {
      items := items[key := text];
    }

    /** `removeItem(key)`: the entry for `key` is gone, nothing else changes; an absent key is no error. */
    method RemoveItem(key: string)
      modifies this
      ensures items == old(items) - {key}
    {
      items := items - {key};
    }

    /** `clear()`: every entry is gone. */
    method Clear()
      modifies this
      ensures items == map[]
    {
      items := map[];
    }

    /** `Object.keys(localStorage)`: every stored key once, in the host's own order. */
    method Keys() returns (keys: seq<string>)
      ensures Enumerates(keys, items)
    {
      keys := [];
      var rest := items.Keys;
      while rest != {}
        invariant forall k :: k in items <==> k in keys || k in rest
        invariant forall k :: k in rest ==> k !in keys
        invariant Distinct(keys)
        decreases |rest|
      {
        var k :| k in rest;
        keys := keys + [k];
        rest := rest - {k};
      }
    }
  }

  /** What `getItem` answers for `key` in a store holding `m`. */
  function Lookup(m: map<string, string>, key: string): (r: Option<string>)
    ensures r.Some? <==> key in m
    ensures r.Some? ==> r.value == m[key]
  {
    if key in m then Some(m[key]) else None
  }

  /**
    The host's read-after-write laws: `getItem` answers the text last written
    by `setItem` for the key, nothing after `removeItem`, and is unaffected by
    writes and removals of other keys.
  */
  lemma ReadAfterWrite(m: map<string, string>, key: string, other: string, text: string)
    ensures Lookup(m[key := text], key) == Some(text)
    ensures Lookup(m - {key}, key) == None
    ensures other != key ==> Lookup(m[key := text], other) == Lookup(m, other)
    ensures other != key ==> Lookup(m - {key}, other) == Lookup(m, other)
  {
  }

  predicate Distinct(keys: seq<string>)
  {
    forall i, j :: 0 <= i < j < |keys| ==> keys[i] != keys[j]
  }

  /** `keys` lists every key of `m` exactly once. */
  predicate Enumerates(keys: seq<string>, m: map<string, string>)
  {
    Distinct(keys) && (forall k :: k in keys ==> k in m) && (forall k :: k in m ==> k in keys)
  }

  /** The space one entry takes: the length of its key plus the length of its text. */
  function EntrySize(key: string, text: string): nat
  {
    Utf16Length(key) + Utf16Length(text)
  }

  /** The space all entries of `m` take, summed in no particular order. */
  ghost function Footprint(m: map<string, string>): nat
    decreases |m|
  {
    if m == map[] then 0
    else
      var k :| k in m;
      EntrySize(k, m[k]) + Footprint(m - {k})
  }

  /** The sum does not depend on the order: any entry can be taken out first. */
  lemma {:induction false} FootprintRemove(m: map<string, string>, key: string)
    requires key in m
    ensures Footprint(m) == EntrySize(key, m[key]) + Footprint(m - {key})
    decreases |m|
  {
    var k :| k in m && Footprint(m) == EntrySize(k, m[k]) + Footprint(m - {k});
    if k != key {
      var m' := m - {k};
      assert key in m';
      FootprintRemove(m', key);
      assert m - {key} - {k} == m' - {key};
      assert k in m - {key};
      FootprintRemove(m - {key}, k);
    }
  }

  /** Adding an entry for a new key adds its size; overwriting one trades the old size for the new. */
  lemma FootprintUpdate(m: map<string, string>, key: string, text: string)
    ensures key !in m ==> Footprint(m[key := text]) == Footprint(m) + EntrySize(key, text)
    ensures key in m ==> Footprint(m[key := text]) + EntrySize(key, m[key]) == Footprint(m) + EntrySize(key, text)
  {
    var m' := m[key := text];
    FootprintRemove(m', key);
    assert m' - {key} == m - {key};
    if key in m {
      FootprintRemove(m, key);
    } else {
      assert m - {key} == m;
    }
  }

  /** A prefix one element longer is the shorter prefix followed by that element. */
  lemma PrefixNext<T>(s: seq<T>, i: nat)
    requires i < |s|
    ensures s[..i + 1] == s[..i] + [s[i]]
  {
  }

  /** `pieces.join('')`. */
  function Concat(pieces: seq<string>): string
  {
    if pieces == [] then "" else pieces[0] + Concat(pieces[1..])
  }

  /** The texts stored under `keys`, in that order. */
  function ValuesAt(m: map<string, string>, keys: seq<string>): (r: seq<string>)
    requires forall k :: k in keys ==> k in m
    ensures |r| == |keys|
    ensures forall i :: 0 <= i < |keys| ==> r[i] == m[keys[i]]
  {
    if keys == [] then [] else [m[keys[0]]] + ValuesAt(m, keys[1..])
  }

  /**
    Joining the keys and joining their texts, in any enumeration order of the
    store, gives lengths whose sum is the store's footprint.
  */
  lemma {:induction false} FootprintOfEnumeration(keys: seq<string>, m: map<string, string>)
    requires Enumerates(keys, m)
    ensures Utf16Length(Concat(keys)) + Utf16Length(Concat(ValuesAt(m, keys))) == Footprint(m)
    decreases |keys|
  {
    if keys == [] {
      assert m.Keys == {};
      assert m == map[];
    } else {
      var k := keys[0];
      var rest := keys[1..];
      EnumeratesTail(keys, m);
      FootprintOfEnumeration(rest, m - {k});
      ValuesAtTail(keys, m);
      assert Concat(keys) == k + Concat(rest);
      Utf16LengthConcat(k, Concat(rest));
      Utf16LengthConcat(m[k], Concat(ValuesAt(m - {k}, rest)));
      FootprintRemove(m, k);
    }
  }

  /** The texts fetched one by one for an enumeration of the store sum, with the keys, to its footprint. */
  lemma FootprintOfFetched(keys: seq<string>, values: seq<string>, m: map<string, string>)
    requires Enumerates(keys, m) && |values| == |keys|
    requires forall j :: 0 <= j < |keys| ==> keys[j] in m && values[j] == m[keys[j]]
    ensures Utf16Length(Concat(keys)) + Utf16Length(Concat(values)) == Footprint(m)
  {
    assert values == ValuesAt(m, keys);
    FootprintOfEnumeration(keys, m);
  }

  /** An enumeration is empty exactly when the store is. */
  lemma EnumeratesEmpty(keys: seq<string>, m: map<string, string>)
    requires Enumerates(keys, m)
    ensures keys == [] <==> m == map[]
  {
    if m != map[] {
      var k :| k in m;
      assert k in keys;
    }
    if keys != [] {
      assert keys[0] in keys;
    }
  }

  lemma EnumeratesTail(keys: seq<string>, m: map<string, string>)
    requires keys != [] && Enumerates(keys, m)
    ensures keys[0] in m && Enumerates(keys[1..], m - {keys[0]})
  {
    var rest := keys[1..];
    assert keys[0] in keys;
    forall x | x in rest ensures x in m - {keys[0]} {
      var j :| 0 <= j < |rest| && rest[j] == x;
      assert keys[j + 1] == x && keys[0] != keys[j + 1];
    }
    forall x | x in m - {keys[0]} ensures x in rest {
      var j :| 0 <= j < |keys| && keys[j] == x;
      assert rest[j - 1] == x;
    }
  }

  lemma ValuesAtTail(keys: seq<string>, m: map<string, string>)
    requires keys != [] && Enumerates(keys, m)
    ensures keys[0] in m && forall k :: k in keys[1..] ==> k in m - {keys[0]}
    ensures Concat(ValuesAt(m, keys)) == m[keys[0]] + Concat(ValuesAt(m - {keys[0]}, keys[1..]))
  {
    EnumeratesTail(keys, m);
    var rest := keys[1..];
    assert ValuesAt(m, rest) == ValuesAt(m - {keys[0]}, rest);
    assert ValuesAt(m, keys) == [m[keys[0]]] + ValuesAt(m, rest);
  }

  /** The keys listed in `keys`, as a set. */
  function KeysIn(keys: seq<string>): set<string>
  {
    set k | k in keys
  }

  /** The store after `setItem(e.0, e.1)` for each entry `e` of `entries` in turn. */
  function SetEach(m: map<string, string>, entries: seq<(string, string)>): map<string, string>
    decreases |entries|
  {
    if entries == [] then m else SetEach(m[entries[0].0 := entries[0].1], entries[1..])
  }

  /** Keys never written keep their entry (or their absence). */
  lemma {:induction false} SetEachUntouched(m: map<string, string>, entries: seq<(string, string)>, key: string)
    requires forall i :: 0 <= i < |entries| ==> entries[i].0 != key
    ensures key in SetEach(m, entries) <==> key in m
    ensures key in m ==> SetEach(m, entries)[key] == m[key]
    decreases |entries|
  {
    if entries != [] {
      SetEachUntouched(m[entries[0].0 := entries[0].1], entries[1..], key);
    }
  }

  /** The last write to a key is the one that stays. */
  lemma {:induction false} SetEachLast(m: map<string, string>, entries: seq<(string, string)>, i: nat)
    requires i < |entries|
    requires forall j :: i < j < |entries| ==> entries[j].0 != entries[i].0
    ensures entries[i].0 in SetEach(m, entries)
    ensures SetEach(m, entries)[entries[i].0] == entries[i].1
    decreases |entries|
  {
    var m' := m[entries[0].0 := entries[0].1];
    if i == 0 {
      SetEachUntouched(m', entries[1..], entries[0].0);
    } else {
      SetEachLast(m', entries[1..], i - 1);
    }
  }

  /** One more `setItem` after a run of them. */
  lemma {:induction false} SetEachAppend(m: map<string, string>, entries: seq<(string, string)>, e: (string, string))
    ensures SetEach(m, entries + [e]) == SetEach(m, entries)[e.0 := e.1]
    decreases |entries|
  {
    if entries == [] {
      assert [] + [e] == [e];
    } else {
      assert (entries + [e])[1..] == entries[1..] + [e];
      SetEachAppend(m[entries[0].0 := entries[0].1], entries[1..], e);
    }
  }
}
