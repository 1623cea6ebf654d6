# storage wrapper, modelled in Dafny

This project models a small browser library that wraps `localStorage`, plus one
helper from the image loader that ships with it.

- `lib/storage.js` publishes `window.storage`. The wrapper:
  - writes values as JSON text where `JSON.stringify` can (it passes `undefined` and values with cycles on as they are) and reads every item back through `JSON.parse`;
  - offers `get`/`set`/`remove` in a synchronous form and a callback form;
  - loops over several keys in `getMulti`/`setMulti`/`removeMulti`;
  - estimates the space in use (`size`) and the space left (`left`).
- `test/public/javascripts/storey.js` publishes `window.storey`, a variant of
  the same wrapper. It stores strings as they are, adds `clear`, reports
  `size`/`left` through callbacks, and counts completions inside the callbacks.
- `registerBaseUrl` in `lib/mage.js` rewrites a table of image URLs in place
  against its `baseUrl` entry.

The modules follow the program's structure:

| module | file | contents |
|---|---|---|
| `JsValue` | jsvalue.dfy | the JavaScript values the wrapper handles, `String(v)`, and `.length` counted in UTF-16 code units |
| `Json` | json.dfy | `JSON.stringify` (`Encode`) and `JSON.parse` (`Decode`) written out. The round trip is proved: `Decode(Encode(v)) == Some(Canon(v))` |
| `WebStorage` | webstorage.dfy | the host store as a class over `map<string, string>`, with the space its entries take (`Footprint`) |
| `Codec` | codec.dfy | `parseIfPossible`, which both copies share, and what `getSync` makes of a stored item |
| `Storage` | storage.dfy | `lib/storage.js` |
| `Storey` | storey.dfy | `test/public/javascripts/storey.js` |
| `Mage` | mage.dfy | `registerBaseUrl` |

How JavaScript is represented:

- A callback a caller may pass becomes a `hasCallback` flag.
- What became of that callback is a result:
  - `Fired`: it was called.
  - `Skipped`: the wrapper checked for it and did not call it.
  - `Threw`: it was called without a check and a TypeError escaped.
  - Where a callback is called once or not at all, the result is a call count or a list of the values reported.
- Work deferred with `setTimeout`/`setInterval` and no delay runs in the order it was scheduled. Each callback form is modelled as taking effect at the call: its write or removal happens before the call returns, and its callback sees the result in call order.
- `getItem`'s answer is `Lookup` (an `Option`), which `Codec.ItemValue` turns into the string or `null` the wrapper sees; `values[i]` past the end of an array is `undefined` (`Storage.ValueAt`).
- Whether the browser offers the store is the parameter `works` of `Load`.

## Model

| member | source | states |
|---|---|---|
| JsValue.Utf16Length | lib/storage.js:333 | `.length` counts UTF-16 code units: between one and two per character |
| JsValue.Utf16LengthConcat | lib/storage.js:333 | the length of `join('')` of two pieces is the sum of their lengths |
| JsValue.NatToDecimal | lib/storage.js:120 | the decimal numeral of a number is all digits, non-empty, with a leading zero only for 0 |
| JsValue.ToStringOfSingleton | lib/storage.js:105 | `String([x])`, the text `JSON.parse` reads for a one-element array, is `String(x)`, or empty for a `null` or `undefined` element |
| Json.Decode | lib/storage.js:105 | `JSON.parse` yields JSON data: objects with distinct keys, no `undefined` anywhere; a parsed string is shorter than its text |
| Json.DecodeSurrogatePair | lib/storage.js:105 | an escaped surrogate pair such as `\ud83d\ude00` reads as the one character U+1F600 |
| Json.EncodeKind | lib/storage.js:120 | `JSON.stringify` gives non-empty text whose first character tells the kind: a quote exactly for a string, `[` exactly for an array, `{` exactly for an object, a minus sign or digit exactly for a number |
| Json.DecodeEncode | lib/storage.js:105 | `JSON.parse(JSON.stringify(v))` is `v` for every value that is JSON data |
| Json.RoundTrip | lib/storage.js:118-124 | for any value without cycles other than a bare `undefined`, `JSON.parse(JSON.stringify(v))` is `v` with `undefined` elements turned to `null` and `undefined` properties dropped |
| Json.CanonCanonical | lib/storage.js:120 | that normalised value is JSON data |
| Json.EncodeCanon | lib/storage.js:120 | `JSON.stringify` writes a value and its normalised form identically |
| Json.CanonOfCanonical | lib/storage.js:103-109 | normalising leaves JSON data unchanged |
| Json.Upsert | lib/storage.js:313 | setting a property adds its key and keeps every other property |
| Json.UpsertDistinct | lib/storage.js:313 | setting a property keeps the keys distinct |
| Json.UpsertNew | lib/storage.js:313 | setting a new key appends the property at the end |
| Json.UpsertCanonical | lib/storage.js:105 | a parsed object stays JSON data when a later duplicate key replaces the value |
| Codec.ParseIfPossible | lib/storage.js:103-109 | parsing succeeds exactly when `String(x)` is JSON text, and then gives what `JSON.parse` reads from it; otherwise `x` comes back unchanged, and nothing is thrown |
| Codec.ParsedIsJson | lib/storage.js:103-109 | whatever `parseIfPossible` parsed is JSON data that survives another stringify/parse |
| Codec.ParseEncodedText | lib/storage.js:212-214 | a stored text that is the JSON of a value reads back as that value |
| Codec.ReadBack | lib/storage.js:212-214 | `getSync`: `null` for an absent key; the parsed value when the text is JSON; otherwise the text itself |
| Codec.NullReadsBack | lib/storage.js:199-200 | `parseIfPossible(null)` is `null`, so an absent key reads back as `null` |
| Codec.ParseStringChanges | test/public/javascripts/storey.js:94-105 | a string comes back from `parseIfPossible` unchanged exactly when it is not JSON text |
| Codec.ReparsedScalar | lib/storage.js:228 | the second `parseIfPossible` in `getMulti` gives a number, a boolean or `null` back unchanged |
| Codec.QuotedFortyTwo | test/public/javascripts/storey.js:101 | the text `"42"` with its quotes parses to the string 42, and the text 42 parses to the number 42 |
| WebStorage.Store.GetItem | lib/storage.js:21 | `getItem` answers the stored text, or nothing for an absent key |
| WebStorage.Store.Keys | lib/storage.js:332 | `Object.keys` of the store lists every stored key exactly once |
| WebStorage.ReadAfterWrite | lib/storage.js:20-22 | `getItem` answers the text last written by `setItem` for the key, nothing after `removeItem`, and is unaffected by writes and removals of other keys |
| WebStorage.FootprintRemove | lib/storage.js:331-341 | the summed size of the entries does not depend on the order they are taken in |
| WebStorage.FootprintUpdate | lib/storage.js:331-341 | writing an entry changes the summed size by the new entry's size less the old one's |
| WebStorage.FootprintOfEnumeration | lib/storage.js:332-340 | for any enumeration order, the keys joined plus the texts joined have the summed size as length |
| WebStorage.FootprintOfFetched | test/public/javascripts/storey.js:337-347 | texts fetched one by one in key order give the same total |
| WebStorage.EnumeratesEmpty | test/public/javascripts/storey.js:339-344 | the key list is empty exactly when the store is |
| WebStorage.SetEachAppend | lib/storage.js:174-178 | one more `set` after a run of them updates that one key |
| WebStorage.SetEachLast | lib/storage.js:174-178 | after a run of writes a key holds its last write |
| WebStorage.SetEachUntouched | lib/storage.js:174-178 | a key never written keeps its entry, or stays absent |
| Storage.StringifyIfPossible | lib/storage.js:118-124 | JSON text exactly for values without cycles other than `undefined`; any other input is passed on unchanged, and nothing is thrown |
| Storage.Storage.SetSync | lib/storage.js:158-160 | only the entry for `key` changes; it becomes the value's stored text |
| Storage.Storage.Set | lib/storage.js:143-148 | the same write; the callback fires only if one was given |
| Storage.Storage.GetSync | lib/storage.js:212-214 | returns what `ReadBack` says is stored |
| Storage.Storage.Get | lib/storage.js:197-202 | delivers the `getSync` value; a missing callback throws |
| Storage.Storage.RemoveSync | lib/storage.js:265-267 | only `key` is gone, so a second call changes nothing |
| Storage.Storage.Remove | lib/storage.js:252-256 | the same removal; a missing callback throws |
| Storage.Storage.SetMulti | lib/storage.js:170-185 | the store is the old store after a `set` of every property in turn; the counter ends at the number of keys; the callback fires, at once for an empty object, only if given |
| Storage.Storage.GetMultiAsWritten | lib/storage.js:225-241 | one value per key, each parsed twice; a missing callback throws |
| Storage.Storage.GetMulti | lib/storage.js:225-241 | corrected: one value per key, equal to what `getSync` returns for it |
| Storage.Storage.RemoveMulti | lib/storage.js:277-290 | every listed key is gone and nothing else; the counter ends at the number of keys; a missing callback throws |
| Storage.Storage.Size | lib/storage.js:331-341 | the summed UTF-16 length of every key and every stored text |
| Storage.Storage.Left | lib/storage.js:349-351 | `left() + size() == 5 * 1024 * 1024` |
| Storage.ConstructKeyValue | lib/storage.js:310-316 | keys are distinct and exactly the given keys; each key maps to the value at its last position, or `undefined` past the end of the values |
| Storage.Load | lib/storage.js:91-94 | the wrapper is published exactly when the store works, over that store |
| Storage.SetThenGet | lib/storage.js:158-160 | after `setSync(k, v)`, `getSync(k)` is `JSON.parse(JSON.stringify(v))` |
| Storage.SetThenGetCanonical | lib/storage.js:212-214 | JSON data written with `setSync` reads back as itself |
| Storage.SetThenGetString | lib/storage.js:118-124 | strings are JSON-encoded, so every string reads back as itself |
| Storage.SetThenGetUndefined | lib/storage.js:118-124 | `undefined` is stored as the text "undefined" and reads back as that string |
| Storage.UndefinedIsNotJson | lib/storage.js:105 | the text "undefined" is not JSON |
| Storage.SetMultiStoresEach | lib/storage.js:170-185 | after `setMulti` each property reads back from its own key |
| Storage.SetMultiKeepsOthers | lib/storage.js:170-185 | after `setMulti` every other key keeps its entry |
| Storage.GetMultiReparses | lib/storage.js:227-229 | the string "42" reads back from `getSync` as that string but from `getMulti` as the number 42 |
| Storey.StringifyIfPossible | test/public/javascripts/storey.js:114-123 | a string, `undefined` or a value with cycles is passed on unchanged; anything else becomes its JSON text |
| Storey.Storey.SetSync | test/public/javascripts/storey.js:160-162 | only the entry for `key` changes |
| Storey.Storey.Set | test/public/javascripts/storey.js:145-150 | the same write; the callback fires only if it is a function |
| Storey.Storey.GetSync | test/public/javascripts/storey.js:215-217 | returns what `ReadBack` says is stored |
| Storey.Storey.Get | test/public/javascripts/storey.js:197-202 | delivers the `getSync` value; a missing callback throws |
| Storey.Storey.RemoveSync | test/public/javascripts/storey.js:262-264 | only `key` is gone |
| Storey.Storey.Remove | test/public/javascripts/storey.js:249-253 | the same removal; the callback fires only if it is a function |
| Storey.Storey.Clear | test/public/javascripts/storey.js:287-291 | the store is empty afterwards |
| Storey.Storey.SetMulti | test/public/javascripts/storey.js:172-185 | every property is written in turn; the callback fires exactly once for a non-empty object and never for an empty one |
| Storey.Storey.GetMultiAsWritten | test/public/javascripts/storey.js:228-238 | one value per key, each parsed twice; the callback gets them exactly once, never for no keys |
| Storey.Storey.GetMulti | test/public/javascripts/storey.js:228-238 | corrected: one `getSync` value per key, delivered exactly once, never for no keys |
| Storey.Storey.RemoveMulti | test/public/javascripts/storey.js:274-285 | every listed key is gone and nothing else; the callback fires exactly once, never for no keys |
| Storey.Storey.Size | test/public/javascripts/storey.js:335-352 | reports the summed size once, and never for an empty store or a missing callback |
| Storey.Storey.Left | test/public/javascripts/storey.js:360-364 | reports `5 * 1024 * 1024` less the summed size, under the same conditions |
| Storey.Load | test/public/javascripts/storey.js:82-85 | the wrapper is published exactly when the store works |
| Storey.SetThenGetString | test/public/javascripts/storey.js:114-123 | a string is stored as it is, and reads back unchanged exactly when it is not JSON text |
| Storey.SetThenGetFortyTwo | test/public/javascripts/storey.js:215-217 | the string "42" reads back as the number 42 |
| Storey.SetThenGet | test/public/javascripts/storey.js:160-162 | any other value reads back as `JSON.parse(JSON.stringify(v))` |
| Storey.SetThenGetCanonical | test/public/javascripts/storey.js:215-217 | JSON data other than a string reads back as itself |
| Storey.GetMultiReparses | test/public/javascripts/storey.js:230-231 | the array `[7]` reads back from `getSync` as that array but from `getMulti` as the number 7 |
| Mage.WithBase | lib/mage.js:98-105 | the rewritten table has the same ids |
| Mage.RegisterBaseUrl | lib/mage.js:93-108 | returns the same table; without `baseUrl` it is unchanged; with it, that entry is gone and every other URL is the base followed by the old URL |
| Mage.WithBaseStrips | lib/mage.js:104 | each new URL is the base followed by the old URL, intact, so removing the base gives the old table back |
| Mage.RegisterOnce | lib/mage.js:97 | the rewritten table has no `baseUrl` entry, so a second call changes nothing |
| Mage.NoSlashInserted | lib/mage.js:101-104 | a base without a trailing slash is glued straight onto the image name |

The `forEach` helper `constructKeyValue` is the same code in
test/public/javascripts/storey.js:311-317. `Storage.ConstructKeyValue` models
both copies.

## Left out

- Floating-point numbers: the parser refuses fractions and exponents, so such text counts as not JSON. The model does not cover numbers beyond 1e21 or precision lost above 2^53.
- Json.Decode: a `\u` escape of a lone surrogate (one not in a high-low pair) counts as not JSON, although `JSON.parse` accepts it, because a Dafny string cannot hold half a character. `__proto__` keys and the ordering JavaScript gives integer-like keys are left out too.
- Key coercion: keys are strings. `String()` of a non-string key is not modelled.
- Timing: `setTimeout`/`setInterval` scheduling and the `async` helper's status polling are left out. Writes and removals are modelled as taking effect at the call, whereas the source defers them: `storage.set(k, v); storage.getSync(k)` in one turn reads the old entry in the source and the new one in the model.
- Host failures: the host's quota errors from `setItem` and browser support detection (`storageSupported`) are not modelled. The latter is the `works` parameter.
- Callbacks that throw: a caller's callback that throws is not modelled. Neither is storey's second call of a callback with the error.
- Truthy non-function callbacks: in lib/storage.js, a truthy callback that is not a function is not modelled.
- storey's swallowed TypeError: when `getMulti` or `left` get no callback, the TypeError is caught and handed back to the collecting callback. That callback pushes one more element into the internal array. The model says only that nothing is reported.
- `storage.forEach` as a whole is left out. It passes the result of `Array.prototype.forEach`, which is always `undefined`, to `constructKeyValue`. Only `constructKeyValue` is modelled.
- `storage.has` is the same function as `get` and is not modelled separately.
- Property order: `setMulti` takes the object's own properties in the order given. JavaScript's own ordering of integer-like keys is not modelled.
- Mage.RegisterBaseUrl: the URLs are strings. A non-string URL, on which `img.substr` would throw, is not modelled. Neither are inherited enumerable properties that `for…in` would visit.
- The rest of lib/mage.js (`teleport`, `loadImage`, `convertImgToBase64`) is not part of this model. That code is canvas, image loading and DOM work.

## Findings

| source | as written | input that shows it | evidently intended | confidence | as-written member | corrected member |
|---|---|---|---|---|---|---|
| lib/storage.js:225-241 | `rememberValue` runs `parseIfPossible` again on the value `get` has already parsed | `setSync(k, "42")` stores `"42"` with its quotes; `getSync(k)` gives the string "42", but `getMulti([k], cb)` gives the number 42 | each value as `get` delivers it, the same as `getSync` | not executed | Storage.Storage.GetMultiAsWritten, Storage.GetMultiReparses | Storage.Storage.GetMulti |
| test/public/javascripts/storey.js:228-238 | `rememberValue` runs `parseIfPossible` again on the value `get` has already parsed | `setSync(k, [7])` stores `[7]`; `getSync(k)` gives the array `[7]`, but `getMulti([k], cb)` gives the number 7, since `String([7])` is `7` | each value as `get` delivers it, the same as `getSync` | not executed | Storey.Storey.GetMultiAsWritten, Storey.GetMultiReparses | Storey.Storey.GetMulti |
