# config-loader core, modelled in Dafny

The loader in `index.js` builds a configuration object in two steps:

1. It extracts configuration from environment variables into the caller's own object.
   A variable named `<CATEGORY>_<KEY>` is taken when three things hold:
   the name contains `_`, both parts are non-empty, and the category is in the caller's list.
   Its value is written to `config[CATEGORY][KEY]` only when that entry is absent, so the first write wins.
   A value that looks like padded base64 is stored decoded.
2. Only when `config.CONFIG.BUCKET_NAME` exists does it go to a storage bucket.
   From the bucket listing it selects, in listing order, the first item of each listed element whose content type is JSON, to download and merge.

The model has one module per component:

- `Wrappers` (wrappers.dfy): `Option` and `Result`.
- `Base64` (base64.dfy): `isBase64`.
  The source's regular expression is written as a grammar: whole four-character groups, then at most one padded group.
  A flat description `WellFormed` is proved equivalent to it.
- `Names` (names.dfy): `splitOnce`.
  It is modelled through `String.prototype.split` and `Array.prototype.join` (`Split`, `Join`), as the source computes it.
  Two round-trip laws are proved, one in each direction.
- `ConfigTree` (config.dfy): scalar values, the two-level configuration map, JavaScript truthiness, and the caller's mutable object `ConfigObject`.
- `Environment` (environment.dfy): the extraction loop.
  `ExtractEnvironment` is a method with a `while` loop that changes the caller's object in place.
  It is proved equal to the fold `Extract`.
  Lemmas then describe `Extract` entry by entry against the loop-free reference `Expected`.
- `Bucket` (bucket.dfy): the `files.forEach` selection loop `SelectJsonFiles`.
  It is proved equal to `JsonFiles`, and lemmas about `JsonFiles` state "exactly the JSON first items of the listed elements, in listing order".
- `Loader` (loader.dfy): the remote-fetch trigger, the storage options, and the exported function `Load`.

The environment is an input sequence of (name, value) pairs, in the order `Object.keys(process.env)` gives.
The base64-then-UTF-8 decoding of a value is a function parameter `decode`.
The value the bucket listing resolves with, or the error it rejects with, is also an input.

The listing is modelled as the code reads it: a sequence of elements, of which the code takes `file[0]`.
An element with no first item makes `file[0].metadata` throw.
That ends the load with a rejection (`NoObjectInEntry`).
What the storage client's response actually contains is not part of this model.
If it resolves with one element holding every file, only the first file is ever considered, and an empty bucket rejects (`OnlyFirstItemSelected`).
Likewise, any value made of whole four-character groups of the base64 alphabet, such as `prod` or `true`, passes `isBase64` and is stored decoded (`PlainWordStoredDecoded`).

The code is simpler than a fuller design of such a loader, and the model follows the code:
- Nothing is cached.
- No nonce is sent.
- Encoded values are recognised by the base64 pattern, not by a `data:` prefix.
- Category and key names are kept as written (no case folding).
- A value is decoded once, at extraction, not by a later pass over the tree.
- `merge(data, config)` (index.js:66) lets the existing configuration win over remote data.
- A remote body that does not parse is skipped (`if (data)`), not kept as an opaque fragment.

## Model

| member | source | states |
|---|---|---|
| Base64.IsBase64 | index.js:10-14 | an absent or empty value is never accepted |
| Base64.GroupsIff | index.js:12 | `([0-9a-zA-Z+/]{4})*` matches exactly the alphabet texts whose length is a multiple of 4 |
| Base64.IsBase64Iff | index.js:10-14 | the recogniser accepts a text if and only if it is non-empty, a multiple of 4 long, alphabet characters except the last two positions, which may be `=`, and `=` next-to-last only when last is `=` too |
| Base64.AcceptedShape | index.js:12-13 | every accepted text has positive length divisible by 4, only characters of `[0-9a-zA-Z+/=]`, and `=` only in the last two positions |
| Names.Split | index.js:17 | the split has at least one component and no component contains the separator |
| Names.JoinSplit | index.js:17-18 | joining the split components with the separator gives back the text |
| Names.SplitHasSeveralParts | index.js:17-18 | the split has more than one component if and only if the separator occurs |
| Names.SplitAfterHead | index.js:17-18 | a separator-free head followed by the separator splits into that head and then the split of the rest |
| Names.SplitOnceNone | index.js:17-19 | `splitOnce` returns nothing if and only if the name contains no `_` |
| Names.SplitOnceRoundTrip | index.js:16-18 | a split name's head holds no `_`, and head + `_` + rest is the name |
| Names.SplitOnceOfJoined | index.js:16-18 | any `_`-free head, `_` and rest split back into exactly that head and rest |
| Names.SplitOnceInjective | index.js:16-18 | distinct names never split into the same (head, rest) pair |
| Environment.Target | index.js:142-144 | a name writes a (category, key) pair only when the category is allowed, both parts are non-empty, and name = category + `_` + key with no `_` in the category |
| Environment.TargetOfName | index.js:142-144 | conversely, every allowed non-empty `_`-free category, `_` and non-empty key names a variable that writes that pair |
| Environment.FirstValueSome | index.js:141-147 | some variable supplies a value for (category, key) if and only if some variable's name writes that pair |
| Environment.ExtractGet | index.js:140-151 | every `config[cat][key]` after extraction is the value present before it if there was one, otherwise the stored value of the first variable naming that pair; otherwise it is absent |
| Environment.ExtractCategories | index.js:141-146 | a category exists after extraction if and only if it existed before or some variable writes into it |
| Environment.ExtractLeavesOthers | index.js:143-146 | a category that no variable writes keeps its object exactly, or stays absent |
| Environment.ExtractLeavesUnlisted | index.js:144 | a top-level key not in the category list is left unchanged |
| Environment.ExtractNoCategories | index.js:140 | with an empty category list the configuration is unchanged |
| Environment.ExtractKeepsWrites | index.js:146-147 | an entry present before the loop, or written by an earlier variable, keeps its value to the end |
| Environment.PlainWordStoredDecoded | index.js:147 | the plain word `prod` passes the base64 test and is stored decoded, not as written |
| Environment.ExtractEnvironment | index.js:140-151 | the loop leaves the caller's object equal to `Extract` of its old contents |
| Bucket.JsonFilesFailure | index.js:114-115 | selection succeeds if and only if every listed element has a first item; on failure it names the first element without one |
| Bucket.JsonFilesAppend | index.js:113-118 | selecting from two listings one after the other gives the concatenation of the selections, so listing order is kept |
| Bucket.JsonFilesSingle | index.js:115-116 | one element contributes its first item exactly when that item's content type is `application/json` |
| Bucket.JsonFilesMembers | index.js:113-118 | a file is selected if and only if it is the first item of some listed element and has content type `application/json` |
| Bucket.OnlyFirstItemSelected | index.js:114-116 | an element holding two files contributes at most the first; an element holding none rejects |
| Bucket.SelectJsonFiles | index.js:113-118 | the push loop returns exactly `JsonFiles` of the listing, its error included |
| Loader.Settle | index.js:101-162 | without `CONFIG.BUCKET_NAME` the configuration is returned as it is; with it, a failed listing or a failed selection rejects with its error, zero JSON files returns the configuration unchanged, and a non-empty JSON selection is exactly what is fetched, from the named bucket, with `PROJECT_ID` and `KEY_FILENAME` taken from `CONFIG` when truthy and absent otherwise |
| Loader.BucketAfterExtract | index.js:140-153 | after extraction a bucket is named if and only if it was named before or a variable writes `CONFIG_BUCKET_NAME`; a bucket named before is never replaced |
| Loader.GetFromCloudStorage | index.js:101-129 | reads the storage options and selects the JSON files; its result is the one `Settle` describes for every case of the remote path |
| Loader.Load | index.js:137-165 | the caller's object ends equal to `Extract` of its old contents, and the result is `Settle` of that object |

## Left out

- `download` (index.js:22-60) is left out. It is an HTTPS request with streamed chunks and a status-code check, all I/O.
- The storage client is left out: `new Storage`, `bucket`, `getFiles` and `getSignedUrl` (index.js:77, 101-111) are foreign SDK calls.
  The listing's outcome is an input.
- Downloading and merging the selected files is left out: the `Promise.all` fan-out (index.js:119-126) and `processFile` (index.js:69-99).
  `Fetching` records the options, the files and the configuration the merge would start from.
  It does not record the merged result.
- `deepmerge` (index.js:66) is a foreign library and is left out.
- `JSON.parse` and its swallowed error (index.js:83-88) are left out.
- `Buffer.from(data, 'base64').toString("utf8")` (index.js:147) is the parameter `decode`; its result is not interpreted.
- `debug` and `console` logging are left out.
- The default arguments (index.js:137) and a `null` category list are left out.
  Categories are always a sequence, and the configuration is always given.
- Only a two-level configuration of scalars is modelled.
  The model does not cover a category entry that is not an object (in which case index.js:147, under `"use strict"`, would throw, or skip a key the primitive already has) or deeper nesting.
  Numbers are integers.
- Insert, ExtractGet: keys are modelled as own data properties of plain maps.
  A key `__proto__` is not modelled: JavaScript sends that assignment to the prototype setter, which ignores a string, so `APP___proto__=x` stores nothing, while the model stores it.
  A key that shadows `hasOwnProperty` is not modelled either: after `CONFIG_hasOwnProperty=x`, the next `hasOwnProperty` call on `CONFIG` (index.js:147 or 153) throws and the load rejects, while the model resolves.
- Insert, ExtractGet, ExtractLeavesOthers: category objects are modelled as unshared values, so aliasing between them is not captured.
  If two categories of the caller's object are one shared object, a write through one category shows up in the other in JavaScript.
  That can make a later variable's entry be skipped because the key is already present, and it can change a category that no variable names.
  The model treats each category as its own map.
- Property lookups through the prototype chain (`config.CONFIG.PROJECT_ID` at index.js:101-102) are modelled as own-key lookups.
- The selection walk rejects only on an element with no first item.
  The model does not cover an element whose first item has no `metadata`, or fetches already started before such a rejection.
- Strings are sequences of Unicode characters, not UTF-16 code units.
  The two differ only outside the base64 alphabet, so acceptance by `isBase64` is unaffected.
- `splitOnce` takes only the default `_` separator, its only use in the source.
- test/index.test.js makes no assertions and gives no properties.
