# useForm form-state engine, modelled in Dafny

This project models the form-state engine of `app/registry/composables/useForm.ts`. The engine has four parts:

- **Path accessor.** `getAtPath` reads a value at a dot-separated path. `setAtPath` writes one there, creating `{}` for every missing or non-object intermediate.
- **Leaf enumeration and merges.** `traverseLeaves` reports the leaves of a nested object. `applyPatch` writes those leaves into the form. `replaceValues` blanks every key of the form to `undefined`, then copies in a source object.
- **Cache codec.** `xor` combines the text with a secret that repeats cyclically. `encrypt` is `btoa(xor(JSON.stringify(v), secret))` and `decrypt` is its inverse.
- **`useForm` itself.** It resolves the option defaults, keeps a live form value and a snapshot, restores the form from web storage keyed by the page's path, and offers `reset`, `setFieldValue`, `getFieldValue`, `setFieldsValue`, `persist`, `clearCache`, plus the unmount hook, modelled as `Dispose`.

Values are JavaScript values (`JsValue.Val`):

- undefined, null, booleans, integers, strings of UTF-16 code units, arrays, and objects;
- objects are association lists kept in insertion order, because `Object.keys` order decides what traverseLeaves and replaceValues visit;
- arrays answer to canonical index keys (`"0"`, `"1"`, …).

Each part of the code is modelled in the form it has:

- The loops are methods proved against a specification function:
  - `Access.WriteAtPath` against `SetAtPath`;
  - `Patch.TraversePatch` and its helpers against `Patched(target, Leaves(values, ""))`;
  - `Replace.ReplaceValues` against `Replaced`.
- The expression code is functions: `GetAtPath`, `Xor`, `Encrypt`, `Decrypt`, and the JSON and Base64 text.
- The closures of `useForm` are the methods of the class `UseForm.FormState`. It works over a `UseForm.Browser` that holds the two storage maps and the page path.

The JSON text is modelled concretely:

- It follows the serialisation rules of ECMAScript's `JSON.stringify` and the ECMA-404 grammar for `JSON.parse`, for integers below 10^21 in magnitude (see "## Left out").
- Base64 follows section 4 of RFC 4648, with the forgiving decoding of the HTML standard's `atob`.
- The codec round trip is therefore proved, not assumed. Every form value is well-formed (no object inside it repeats a key), and every operation keeps it so. As a result, what `persist` stores is proved to load back as the form's JSON normal form.

Three behaviours of the code worth knowing:

- **getAtPath steps into arrays by key.** `isObject` is true for arrays, so `Step` reads an array's index keys. Only traverseLeaves treats arrays as leaves.
- **persist can throw.** `btoa` throws on a code unit above 0xFF. The xor'd JSON text of a form containing non-Latin-1 text can have one, so `Persist` reports the failure (`ok == false`) and stores nothing. The error is not swallowed.
- **replaceValues keeps removed keys.** Keys of the form that the source lacks are kept and hold `undefined`; they are not deleted.

## Model

| member | source | states |
|---|---|---|
| Access.GetThroughNonObject | app/registry/composables/useForm.ts:54-61 | getAtPath never fails: once the current value is not an object (null, a primitive or undefined), the rest of the path reads undefined |
| Access.SetGet | app/registry/composables/useForm.ts:37-52 | after setAtPath at a path, getAtPath at the same path reads the value written |
| Access.SetFrame | app/registry/composables/useForm.ts:37-52 | for a write that `Reachable` admits, a path that is neither a prefix nor an extension of the written path reads the same as before |
| Access.SetVivifies | app/registry/composables/useForm.ts:44-47 | for a write that `Reachable` admits, each proper prefix of the written path now leads to the object that was there, or to a fresh `{}` when it held no object, with the rest of the path written into it |
| Access.SetPresent | app/registry/composables/useForm.ts:37-52 | for a write that `Reachable` admits, every key along the written path is an own property afterwards |
| Access.SetSame | app/registry/composables/useForm.ts:37-52 | writing the value a present path already holds changes nothing |
| Access.SetWellFormed | app/registry/composables/useForm.ts:37-52 | writing a well-formed value into a well-formed target leaves no object with a repeated key |
| Access.GetPresent | app/registry/composables/useForm.ts:54-61 | a path reads as something other than undefined only if every key along it is an own property and every value before the last key is an object |
| Access.SetExtends | app/registry/composables/useForm.ts:37-52 | for a write that `Reachable` admits, below the written path the new value's own paths read as in the value written |
| Access.WriteAtPath | app/registry/composables/useForm.ts:37-52 | the loop that walks `cur` and writes the last key computes exactly SetAtPath |
| JsValue.PutGet | app/registry/composables/useForm.ts:51 | a property write is read back under its key and leaves every other key as it was |
| JsValue.DecimalRoundTrip | app/registry/composables/useForm.ts:71 | an array index is written as its canonical decimal key and only that key reads back as the index |
| Path.SplitJoin | app/registry/composables/useForm.ts:42 | splitting the dot-joined path of dot-free keys gives the keys back |
| Path.JoinExtends | app/registry/composables/useForm.ts:71 | the path of a nested key is the base path, a dot, and the key, which is the joined key path one longer |
| Path.JoinSplit | app/registry/composables/useForm.ts:58 | joining the parts of `path.split('.')` gives the path back |
| Traverse.Leaves | app/registry/composables/useForm.ts:63-79 | no reported value is an object that is not an array; a value that is not an object, an empty object and an empty array report nothing |
| Traverse.LeavesExact | app/registry/composables/useForm.ts:63-79 | on a plain object, traverseLeaves reports exactly the leaf paths (those that descend only through non-array objects), each with the value found there, and no reported path is a prefix of another |
| Traverse.LeavesWellFormed | app/registry/composables/useForm.ts:63-79 | every value that traverseLeaves reports from a well-formed value is well-formed |
| Traverse.FieldLeavesPrefixFree | app/registry/composables/useForm.ts:70-78 | the paths reported for the keys of one object are pairwise prefix-free |
| Patch.PatchedWrites | app/registry/composables/useForm.ts:85-87 | with prefix-free leaf paths that are each `Reachable` in the target (`AllReachable`), every leaf is present afterwards and holds the value reported with it |
| Patch.PatchedFrame | app/registry/composables/useForm.ts:85-87 | when every write of the fold is one `Reachable` admits (`WritesReachable`), a path that diverges from every reported path reads as before the patch |
| Patch.PatchedWellFormed | app/registry/composables/useForm.ts:85-87 | writing well-formed leaves into a well-formed target keeps it well-formed |
| Patch.PatchedIdempotent | app/registry/composables/useForm.ts:81-88 | for prefix-free leaf paths that are each `Reachable` in the target, applying the same leaves twice equals applying them once |
| Patch.ApplyPatchSpec | app/registry/composables/useForm.ts:81-88 | for a plain patch whose leaf paths are each `Reachable` in the target, after applyPatch every leaf path of the patch holds the patch's value, every path not overlapped by a leaf reads as before, and applying the patch again changes nothing |
| Patch.TraversePatch | app/registry/composables/useForm.ts:63-79 | the recursive traversal with the setAtPath callback computes the fold of SetAtPath over the reported leaves, in order |
| Patch.PatchFields | app/registry/composables/useForm.ts:70-78 | the loop over an object's keys computes the fold over that object's leaves |
| Patch.PatchItems | app/registry/composables/useForm.ts:70-78 | the loop over a top-level array's index keys computes the fold over its leaves |
| Patch.ApplyPatch | app/registry/composables/useForm.ts:81-88 | applyPatch equals the fold of setAtPath over the leaves of the patch from the empty base |
| Replace.ReplaceValues | app/registry/composables/useForm.ts:90-101 | the two loops compute Replaced: undefined written under each key of the target, then each own entry of an object source assigned in order |
| Replace.ReplacedSpec | app/registry/composables/useForm.ts:90-101 | afterwards a key is present iff it was in the target or is a key of an object source; a key of the source holds the source's value; every other key, and every key when the source is not an object, holds undefined |
| Replace.ReplacedTwice | app/registry/composables/useForm.ts:90-101 | replaceValues with the same source twice equals once, which makes reset idempotent |
| Replace.ReplacedWellFormed | app/registry/composables/useForm.ts:90-101 | replaceValues of a well-formed target with a well-formed source is well-formed |
| Replace.AssignDistinct | app/registry/composables/useForm.ts:99 | Object.assign never repeats a key of the target |
| Base64.Btoa | app/registry/composables/useForm.ts:112 | btoa succeeds exactly on Latin-1 text, and its output length is a multiple of four |
| Base64.Atob | app/registry/composables/useForm.ts:115 | what atob returns is Latin-1 |
| Base64.AtobBtoa | app/registry/composables/useForm.ts:111-115 | atob(btoa(s)) == s for every Latin-1 string |
| Json.ParseParsed | app/registry/composables/useForm.ts:115 | whatever JSON.parse returns has distinct keys in every object and no undefined anywhere |
| JsonRoundTrip.QuoteRoundTrip | app/registry/composables/useForm.ts:111-115 | a string literal written with JSON's escapes reads back as the string |
| JsonRoundTrip.NumRoundTrip | app/registry/composables/useForm.ts:111-115 | an integer's text reads back as the integer |
| JsonRoundTrip.ValueRoundTrip | app/registry/composables/useForm.ts:111-115 | the text of any value with distinct keys parses back to its normal form: undefined elements become null and undefined members are dropped |
| JsonRoundTrip.ParseSerialize | app/registry/composables/useForm.ts:111-115 | JSON.parse(JSON.stringify(v)) is v's normal form for every such v except undefined |
| JsonRoundTrip.NormalizeDefined | app/registry/composables/useForm.ts:111-115 | a value without undefined anywhere is its own normal form, so JSON carries it exactly |
| Codec.XorInvolution | app/registry/composables/useForm.ts:103-109 | xor(xor(s, k), k) == s for every key |
| Codec.XorLatin1 | app/registry/composables/useForm.ts:103-109 | with a Latin-1 key, the result is Latin-1 exactly when the text is |
| Codec.Encrypt | app/registry/composables/useForm.ts:111-112 | encrypt succeeds exactly when the value is not undefined and its xor'd JSON text is Latin-1 |
| Codec.Decrypt | app/registry/composables/useForm.ts:114-115 | for any stored string and any secret, what decrypt returns has distinct keys in every object and no undefined inside, so loading it keeps the form well-formed |
| Codec.EncryptLatin1 | app/registry/composables/useForm.ts:111-112 | with a Latin-1 secret, encrypt succeeds exactly for values whose JSON text is Latin-1 |
| Codec.DecryptEncrypt | app/registry/composables/useForm.ts:111-115 | decrypt(encrypt(v, s), s) is what JSON carries of v |
| UseForm.ConfigureChoice | app/registry/composables/useForm.ts:135-140 | giving all four options yields exactly those settings; leaving the options out is the same as passing `{}`, and gives cache and autoPersist on with a non-empty secret |
| UseForm.RestoredWellFormed | app/registry/composables/useForm.ts:142-155 | the form right after construction is well-formed whenever the initial values are, whether the cache entry was loaded or not |
| UseForm.Restore | app/registry/composables/useForm.ts:142-155 | the restore at construction computes Restored and removes exactly the entry under the page path from the configured storage when it fails to decrypt; nothing else in storage changes |
| UseForm.PersistedLoads | app/registry/composables/useForm.ts:142-155 | an entry that persist wrote is non-empty and loads back as the normal form of the persisted value |
| UseForm.RemountLoads | app/__test__/useForm.test.ts:157-164 | a form constructed after another on the same page persisted `saved` holds replaceValues(initialValues, normal form of saved) |
| UseForm.RemountRestores | app/__test__/useForm.test.ts:200-205 | after that remount, every key of the saved form whose value has no undefined inside holds exactly that value |
| UseForm.FormState.constructor | app/registry/composables/useForm.ts:123-155 | the snapshot is the initial values, the settings are the resolved options, the form and storage are as Restore leaves them, and the form is well-formed |
| UseForm.FormState.Reset | app/registry/composables/useForm.ts:163-165 | reset is replaceValues with the snapshot: every snapshot key holds its snapshot value, other keys are kept as undefined, and a second reset changes nothing |
| UseForm.FormState.SetFieldValue | app/registry/composables/useForm.ts:167-172 | the form becomes SetAtPath of the split path and stays well-formed; when the path is one `Reachable` admits, it then reads as the value and every diverging path reads as before |
| UseForm.FormState.GetFieldValue | app/registry/composables/useForm.ts:174-175 | a field reads as something other than undefined only when every key of its path is an own property of the form and every value before the last key is an object; a missing key or a step through a non-object reads undefined |
| UseForm.FormState.SetFieldsValue | app/registry/composables/useForm.ts:177-179 | the form becomes applyPatch's fold over the leaves of the given values, and stays well-formed |
| UseForm.FormState.Persist | app/registry/composables/useForm.ts:181-187 | with cache off or an empty secret nothing is written; otherwise exactly the entry under the page path in the configured storage is set to the encrypted form, or nothing is written and `ok` is false when btoa throws; the other storage never changes; an entry it stores loads back, at the next construction, as the form's JSON normal form |
| UseForm.FormState.ClearCache | app/registry/composables/useForm.ts:189-191 | removes exactly the entry under the page path from the configured storage, even with cache off |
| UseForm.FormState.Dispose | app/registry/composables/useForm.ts:157-161 | when cache and autoPersist are both on, unmounting has exactly the effect of persist (including nothing stored when the secret is empty or btoa throws, and the entry loading back); otherwise it changes nothing; the storage not configured never changes |

Some definitions have no row because their contracts only restate the code. They are used by the members above:
- `Json.Serialize` models JSON.stringify (useForm.ts:112);
- `Codec.Xor` models xor (useForm.ts:103-109);
- `UseForm.Browser.Store`, `UseForm.Browser.CacheKey` and `UseForm.Browser.GetItem` model getStorage, getCacheKey and getItem (useForm.ts:117-121 and 144);
- `UseForm.Configure` models the option defaults (useForm.ts:135-140);
- `UseForm.CacheEntry` and `UseForm.Restored` model the restore branches (useForm.ts:142-155).

## Left out

- Vue's `reactive`, `toRaw` and `onUnmounted` are not modelled. The form is a plain value field, and the unmount hook is the explicit `Dispose`, which the host calls.
- Object identity and aliasing are not modelled. The form is a value, so the caller's own `initialValues` object is not mutated through the reactive proxy. Updates in place become a new value stored in the field.
- `deepClone` is the identity on immutable values. Its `structuredClone` and JSON fallbacks are not part of this model.
- Numbers are integers. A fraction, an exponent, NaN, Infinity, -0 and bigint have no counterpart. `JsonRoundTrip.ParseSerialize` covers integer-valued data only, and the parser rejects a fraction or an exponent. `Num(int)` is unbounded, but JavaScript rounds integers above 2^53, and `JSON.stringify` writes integers of 10^21 and more in exponent form (`1e+21`). The model writes them as plain digits, so its text and round trip match JavaScript only for integers below 10^21 in magnitude, and exactly only up to 2^53.
- Other value kinds are not modelled: symbols, functions, Dates, Maps, class instances, getters, and `toJSON` methods.
- `Object.keys` lists integer-like keys of an object first, in ascending order. The model lists all keys in insertion order.
- An array has only its index keys. `length` and named properties are not modelled. Writing a non-index key into an array leaves the array unchanged in the model.
- Access.SetFrame, Patch.PatchedFrame, UseForm.FormState.SetFieldValue: the frame results (and the read-back of SetFieldValue) hold only for writes that `Access.Reachable` admits, that is, no non-index key is written into an array. In JavaScript, `setFieldValue('items.length', 0)` truncates the array, so `items.0` then reads undefined. Setting a larger `length` extends the array. A path through `length`, such as `'items.length.x'`, throws a RangeError. The model does not describe these writes.
- A hole in an array is modelled as an explicit undefined element.
- Access.SetGet: requires `Reachable`, which says every write along the path is representable. It is weaker than the source only for paths that write a non-index key into an array.
- Access.SetVivifies: requires `Reachable`. No promise is made for a path that writes a non-index key into an array, which the model treats as a no-op.
- Access.SetPresent: requires `Reachable`. In JavaScript, `setAtPath(form, 'items.foo', 1)` with `items` an array stores an own property `foo` on the array, so the key is present there too; the model does not represent that property.
- Access.SetExtends: requires `Reachable`, for the same reason as SetPresent.
- Patch.PatchedWrites: requires `AllReachable`: every leaf path is `Reachable` in the target. A leaf that writes a non-index key into an array is not covered.
- Patch.PatchedIdempotent: requires prefix-free leaf paths that are each `Reachable` in the target. A batch in which one leaf path extends another, or that writes a non-index key into an array, is not covered.
- Patch.ApplyPatchSpec: requires every leaf path of the patch to be `Reachable` in the target, for the reason given for PatchedWrites. It is also stated only for a plain patch object: every key is non-empty and contains no dot, and nested objects have distinct keys. No promise is stated for patches with a key that contains '.', because its leaf path splits into different keys. No promise is stated for an empty key either: the source drops an empty base when it joins (useForm.ts:71), so the patch `{"": {a: 1}}` writes `a` at the top rather than under `""`. The model reproduces this, but the leaf path no longer names the key.
- Traverse.LeavesExact: stated for plain objects only (non-empty keys without a dot), for the same two reasons.
- Inherited properties are not modelled. Objects here have own keys only, and `__proto__`, `constructor` and `toString` are ordinary keys. In the source, `getAtPath(form, 'toString')` returns the inherited function. `setAtPath` or `applyPatch` with a `__proto__` path walks into `Object.prototype` and writes there. For such paths, the frame lemmas (`Access.SetFrame`, `Patch.PatchedFrame`) do not describe the source. Neither do `Access.GetPresent` and `UseForm.FormState.GetFieldValue`: their promise that a value other than undefined comes from own properties fails for inherited keys such as `'toString'`.
- UseForm.FormState.SetFieldValue, UseForm.FormState.SetFieldsValue: require a well-formed value (no object inside repeats a key). JavaScript cannot build any other value.
- JsonRoundTrip.ParseSerialize: requires every nested object to have distinct keys. JavaScript objects always do.
- The type-level `Path`, `PathValue` and `DeepPartial` exist only at compile time. Paths here are untyped strings.
- The browser's storage and `location` are not real I/O here. They are the maps and the path of `UseForm.Browser`. Quota errors from `setItem` are not modelled.
