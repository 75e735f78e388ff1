# Payment-gateway signature protocol, in Dafny

This project models the signing core of a Node/TypeScript integration with the
TakePayments hosted and direct payment gateway. It covers three parts.

- **TypeScript signer and verifier.**
  - `SignatureHelper.sign` turns a field map into a PHP-style query string and hashes it with the shared secret. It can optionally append `|` and the signed names.
  - `RequestPreparer.prepare` validates an outbound request, fills merchant defaults, takes out the secret and the endpoint URLs, and strips fields the gateway must not receive.
  - `Gateway.prepareSignedRequest` prepares a request and signs it.
  - `ResponseVerifier.verify` checks a gateway response against the secret.
- **The Express server's own helpers** in `server.js`:
  - `encodeForSignature` encodes fields in RFC 1738 form, sorts them and normalises escaped CR/LF.
  - `makeSignatureHex` hashes the encoding with `TP_SIGNATURE_KEY` appended.
  - `makeSignatureWithList` builds the `hex|names` token.
  - `verifySignatureFromIncoming` checks callbacks.
  - `escapeHTML`.
- **The legacy `generateSignature`** from `src/utils/hashUtils.ts`. It sorts the keys, writes `key=value` pairs without encoding, and puts the secret in front.

JavaScript objects are `map<string, Value>`. A `Value` is a string, an integral safe number, a boolean, `null` or `undefined`. Truthiness, `??` and `String()` are written out in `JsValues`.

Operations that mutate the caller's object return a `Mutation`. It holds the outcome, which is a value or one of the thrown errors, and the object's state afterwards. Callers can see that state even when the call throws.

Foreign code is passed in as parameters, and the model assumes nothing about it:
- SHA-512 hex (`Hasher`);
- the `qs` component encoder (`ComponentEncoder`);
- `Buffer.from(hex)` (`HexDecoder`);
- `Number()` (`NumberCoercion`).

The gateway's static fields form an immutable `Config` record. `GatewayConfig.DefaultConfig` holds their initial values.

Module layout follows the source:

| Module | Models |
|---|---|
| `JsValues` | value model and JS coercions |
| `Text` | `split`/`join`/`trim`/`replace` |
| `KeyOrder` | `Array.prototype.sort` order: UTF-16 code units |
| `PropertyOrder` | `Object.keys` order of an ordinary object |
| `PercentEncoding` | `encodeURIComponent` and `phpUrlEncode` |
| `SignatureHelper` | `sign` |
| `GatewayConfig` | the gateway's static fields |
| `RequestPreparer` | `prepare` |
| `ResponseVerifier` | `verify` |
| `Gateway` | `prepareSignedRequest` |
| `LineBreakEscapes` | the server's `%0D` normalisation |
| `ServerSignature` | the server's signature helpers |
| `HtmlEscape` | `escapeHTML` |
| `HashUtils` | `generateSignature` |

The model follows the code where it behaves unexpectedly, including where it departs from its own comments (such as the server.js:36 comment "sort by field name (ASCII)"):

- **An empty name list in the TypeScript verifier signs nothing.** A response token `digest|` has an empty list after the bar. `ResponseVerifier.verify` passes `fields = ""` to `sign`, and `"".split(',')…filter(Boolean)` is `[]`. An empty array is truthy, so `sign` filters every field out and hashes the secret alone. Such a token therefore authenticates no field at all (`ResponseVerifier.EmptyNameListSignsNothing`).
- **The server treats the same token differently.** For `hex|`, `verifySignatureFromIncoming` reads the list `""` as falsy and signs every eligible field (`ServerSignature.EmptyListMeansAllFields`). A list such as `" , "` parses to `[]` there. That array is truthy, so again nothing is signed.
- **The server's name order depends on the names.** The server sorts the chosen fields by code units and copies them into a fresh object. `Object.keys` of that object, and `qs.stringify` over it, list array-index names such as `"9"` and `"10"` first, in numeric order. Only the other names keep the sorted order. So `signedFieldNames` is in code-unit order exactly when no name is an array index (`PropertyOrder.IndicesComeNumerically`, `ServerSignature.EncodeForSignature`).
- **The server never signs a field named `__proto__`.** Its `reduce` copies each chosen field with `acc[k] = v`. For `k = "__proto__"` that assignment runs the `__proto__` setter inherited from `Object.prototype`. The setter ignores primitive values, so no such property is created. The field is then missing from `signedFieldNames` and from `encoded`, whatever its value (`ServerSignature.Assigned`, `ServerSignature.ProtoFieldNeverSigned`). The TypeScript signer copies fields with spread and `Object.fromEntries`, which create own properties, so it does sign such a field.
- **An unset `TP_SIGNATURE_KEY` still signs.** The server appends the text `undefined` to the encoding.
- **The `%7E` replacement in `phpUrlEncode` never fires.** `encodeURIComponent` never escapes `~` (`PercentEncoding.TildeReplacementIsNoOp`).

## Model

| member | source | states |
|---|---|---|
| `JsValues.ToJsString` | src/support/SignatureHelper.ts:37 | `String(v)`: strings unchanged; `"true"`/`"false"`; the words `"null"` and `"undefined"`; and for numbers the shortest decimal, optionally signed, whose digits read back as the number |
| `Text.Split` | server.js:74 | `split` on one character gives at least one piece; no piece holds the separator; joining the pieces gives the input back |
| `Text.Trim` | src/support/SignatureHelper.ts:21 | `trim()` returns a trimmed substring that has only white space around it in the input, and leaves trimmed text alone |
| `Text.ParseNameList` | src/support/SignatureHelper.ts:21 | every parsed name is non-empty, trimmed and free of the separator |
| `Text.KeptPositions` | server.js:75 | reference reading of `filter(Boolean)`: positions holding a non-empty string, in increasing order, as many as there are non-empty strings, so every such position is listed once |
| `Text.NonEmptyOnlyPicks` | server.js:75 | `filter(Boolean)` keeps exactly the strings at those positions, in the same order |
| `Text.ParsedNamesInOrder` | server.js:75 | the parsed names are the trimmed pieces that are not empty, in the order of the pieces |
| `Text.ParsedNames` | src/support/SignatureHelper.ts:21 | a name comes out of a list exactly when it is non-empty and some piece of the list trims to it |
| `Text.ParseJoinedNames` | src/support/SignatureHelper.ts:21 | a list joined from non-empty, trimmed, separator-free names parses back to exactly those names; an empty list parses to none |
| `Text.SplitJoin` | src/support/ResponseVerifier.ts:19-21 | splitting a join of separator-free pieces recovers the pieces |
| `KeyOrder.BelowTotal` | server.js:38 | for any two distinct names, one sorts below the other under JS `<` on strings (UTF-16 code-unit order) |
| `KeyOrder.BelowTransitive` | server.js:38 | the code-unit order of the sort comparator is transitive |
| `KeyOrder.SortedKeys` | src/support/SignatureHelper.ts:33 | the names of a set, each exactly once, in strictly ascending code-unit order |
| `KeyOrder.Sort` | src/support/SignatureHelper.ts:33 | `sort()` without a comparator returns a permutation of its input in ascending code-unit order |
| `KeyOrder.SortIgnoresEnumerationOrder` | src/support/SignatureHelper.ts:33 | sorting any enumeration of a set of names gives its unique ascending listing, so the signed order never depends on insertion order |
| `PercentEncoding.Utf8Decodes` | src/support/SignatureHelper.ts:5 | the UTF-8 bytes `encodeURIComponent` escapes announce their own length and spell the character's code point |
| `PercentEncoding.SpaceReplacement` | src/support/SignatureHelper.ts:5-6 | replacing `%20` by `+` after `encodeURIComponent` gives the per-character form encoding; no byte escape is split or misread |
| `PercentEncoding.TildeReplacementIsNoOp` | src/support/SignatureHelper.ts:7 | the `%7E` to `~` replacement never changes anything |
| `PercentEncoding.PhpUrlEncode` | src/support/SignatureHelper.ts:4-8 | `phpUrlEncode` equals the per-character form encoding; its output never holds `&`, `=`, a raw CR or a raw LF |
| `PercentEncoding.FormRoundTrip` | src/support/SignatureHelper.ts:4-8 | decoding the form encoding gives the original string back |
| `PercentEncoding.PhpUrlEncodeInjective` | src/support/SignatureHelper.ts:4-8 | two strings with the same `phpUrlEncode` are equal |
| `SignatureHelper.SignedFields` | src/support/SignatureHelper.ts:16-30 | the signed fields are exactly the fields of the data that `partial` selects: all of them for a boolean, the parsed names for a string, the array's names for an array, even when empty; values unchanged |
| `SignatureHelper.ListSelectsParsedNames` | src/support/SignatureHelper.ts:20-23 | a comma-separated list selects the same fields as the array it parses to |
| `SignatureHelper.Sign` | src/support/SignatureHelper.ts:11-54 | the token is the hash of the canonical query of exactly the selected fields followed by the secret; `|` and the names in ascending order follow iff `partial` is truthy |
| `SignatureHelper.NormalizeWithoutCarriageReturn` | src/support/SignatureHelper.ts:41 | the raw CR/LF normalisation leaves text without a CR unchanged |
| `SignatureHelper.CanonicalQueryCharacters` | src/support/SignatureHelper.ts:36-41 | the canonical query holds no raw CR or LF, so the normalisation step never fires on it |
| `SignatureHelper.SignSuffixIffTruthy` | src/support/SignatureHelper.ts:48-53 | when the digest has no `|`, the token holds a `|` exactly when `partial` is truthy |
| `SignatureHelper.SignTokenDigest` | src/support/SignatureHelper.ts:43-53 | the text before a token's first `|` is the hash of the canonical query of the signed fields plus the secret |
| `SignatureHelper.FullSignToken` | src/support/SignatureHelper.ts:11-54 | in full mode (`partial = true`) every field is signed and every name is listed in ascending order |
| `SignatureHelper.CanonicalQueryInjective` | src/support/SignatureHelper.ts:36-38 | equal canonical queries mean the same field names with the same `String()` values |
| `ResponseVerifier.ResolveSecret` | src/support/ResponseVerifier.ts:10 | a given secret is used as is; an absent one falls back to the configured `merchantSecret` |
| `ResponseVerifier.ReadClaim` | src/support/ResponseVerifier.ts:15-23 | a truthy `signature` is always deleted; with a truthy secret and a `|` in it, the claim is split into digest and name list, otherwise the whole `String()` is the digest |
| `ResponseVerifier.Verify` | src/support/ResponseVerifier.ts:5-38 | an absent response or undefined `responseCode` throws without change; otherwise the signature is deleted, the outcome is the reference verdict (error 1, error 2, exact digest match or mismatch) and only success converts `responseCode` with `Number()` |
| `ResponseVerifier.VerifyAcceptsSignedResponse` | src/support/ResponseVerifier.ts:15-37 | a response signed in full mode with the secret verifies, even after fields the token does not list are added to it |
| `ResponseVerifier.VerifyIgnoresUnlistedFields` | src/support/ResponseVerifier.ts:15-31 | two responses with the same token that agree on the listed names get the same outcome, whatever their other fields hold |
| `ResponseVerifier.SignSeesOnlySignedFields` | src/support/SignatureHelper.ts:26-38 | the token depends on the data only through the selected fields |
| `ResponseVerifier.EmptyNameListSignsNothing` | src/support/ResponseVerifier.ts:18-30 | a `digest|` token verifies iff the digest is the hash of the secret alone, so none of the response's fields are authenticated |
| `RequestPreparer.WithDefaults` | src/support/RequestPreparer.ts:16-23 | `merchantID` and `merchantPwd` take the configured value only when the request's own value is falsy and the configured one truthy; every other field is unchanged |
| `RequestPreparer.DeleteAll` | src/support/RequestPreparer.ts:38-40 | deleting a list of names removes exactly those keys and keeps every other value |
| `RequestPreparer.TakeEndpoints` | src/support/RequestPreparer.ts:29-40 | secret and URLs are the request's own unless null or undefined, else the configured ones; the stripped fields are gone and every other field keeps its value |
| `RequestPreparer.Prepare` | src/support/RequestPreparer.ts:4-43 | succeeds exactly when a request is given, its `action` is truthy and its `merchantID` after defaulting is truthy; otherwise fails, in this order, for a missing request, a falsy `action`, and a falsy `merchantID` after defaulting, each with the object state at that point; on success returns the resolved endpoints and a request without the stripped fields |
| `Gateway.PreparedFields` | src/support/RequestPreparer.ts:29-42 | what a successful `prepare` leaves is the defaulted request minus the stripped fields, and its secret is the request's own or the configured one |
| `Gateway.AttachSignature` | src/service/Gateway.ts:17-19 | a `signature` is added iff the secret is truthy; it is the full-mode token of the request; nothing else changes |
| `Gateway.PrepareSignedRequest` | src/service/Gateway.ts:11-22 | `prepare` errors propagate with the object state; on success the returned request is the mutated one: the sent fields plus, iff the secret is truthy, their full-mode signature under `String(secret)` |
| `Gateway.SignedRequestEchoVerifies` | src/service/Gateway.ts:11-22 | a signed request echoed back with extra gateway fields, among them `responseCode`, verifies under the same secret |
| `LineBreakEscapes.NormalizeEscapedLineBreaks` | server.js:47-50 | after the three case-insensitive replacements, no `%0D` of either case remains |
| `LineBreakEscapes.NormalizeKeepsCleanText` | server.js:47-50 | text without an escaped CR is left unchanged |
| `LineBreakEscapes.ReplaceAllSplit` | server.js:47-50 | a global replacement never matches across a character its pattern cannot contain, so it rewrites the text on each side of that character independently |
| `LineBreakEscapes.NormalizeSplits` | server.js:44-50 | a value's escaped text, between the `=` after its key and the next `&` or the end, is normalised independently of the rest of the query |
| `LineBreakEscapes.EscapedCarriageReturnBecomesLineFeed` | server.js:47-50 | `%0D%0A`, `%0A%0D` and `%0D`, with the hex letters in either case, each normalise to a single `%0A` |
| `LineBreakEscapes.NormalizeRewritesLineBreak` | server.js:46-50 | in a query, an escaped CR LF, LF CR or lone CR making up a value is replaced by `%0A` and the text before and after is normalised as if it stood alone |
| `LineBreakEscapes.LineBreaksConverge` | server.js:46-50 | the values `"\r\n"`, `"\n\r"`, `"\r"` and `"\n"`, once encoded as `%0D%0A`, `%0A%0D`, `%0D` and `%0A`, give the same normalised query, which is the text that is hashed |
| `PropertyOrder.SortedIndices` | server.js:39-42 | array-index names are listed once each, in ascending numeric order |
| `PropertyOrder.OtherNames` | server.js:39-52 | the names that are not array indices, each created name once, in the order they were created |
| `PropertyOrder.EnumerationOrder` | server.js:39-52 | `Object.keys` lists the same names as were created, each once, with every array index before every other name, the indices in ascending numeric order and the other names in creation order |
| `PropertyOrder.EnumerationWithoutIndices` | server.js:39-52 | without array-index names, `Object.keys` follows creation order |
| `PropertyOrder.IndicesComeNumerically` | server.js:37-52 | creating `"10"` then `"9"`, which is code-unit order, enumerates as `"9"`, `"10"` |
| `ServerSignature.Eligible` | server.js:28-30 | the signable fields are exactly those other than `signature` whose value is neither null nor undefined |
| `ServerSignature.Chosen` | server.js:32-34 | with a name list, only eligible fields it names; without one, all eligible fields; an empty list selects none |
| `ServerSignature.QsPairs` | server.js:44 | one `key=value` pair per name, in the given order, both encoded, the value via `String()` |
| `ServerSignature.Assigned` | server.js:39-42 | the object the `reduce` builds holds every chosen field with its value except one named `__proto__` |
| `ServerSignature.SignedNames` | server.js:37-52 | each property of the built object exactly once, and in code-unit order when no name is an array index |
| `ServerSignature.EncodeForSignature` | server.js:26-53 | the signed names are exactly the eligible, listed fields other than `__proto__`, each once, sorted when none is an array index; `encoded` joins their pairs in that order, normalised, with no `%0D` left |
| `ServerSignature.ProtoFieldNeverSigned` | server.js:37-44 | adding or changing a `__proto__` field changes neither the encoding, the signed names nor the hex |
| `ServerSignature.ExpectedHexIgnoresUnlisted` | server.js:55-58 | the expected hex depends only on the chosen fields: list order, repeats, the `signature` field and unlisted fields do not change it |
| `ServerSignature.MakeSignatureWithList` | server.js:61-65 | when the hex holds no `|`, the token's text before the first `|` is the full hex and the text after it is the comma-joined signed names; when no name holds one either, splitting at `|` gives exactly those two pieces |
| `ServerSignature.ListedAllFields` | server.js:32-34 | a list naming every eligible field (with or without `__proto__`) gives the same hex as no list |
| `ServerSignature.TimingSafeEqual` | server.js:80 | throws iff the lengths differ, otherwise reports byte-wise equality |
| `ServerSignature.SplitFront` | server.js:74 | the destructured `[hexProvided, list]` are the text before the first `|` and the text between the first and second |
| `ServerSignature.VerifySignatureFromIncoming` | server.js:70-84 | accepts iff `signature` is a non-empty string and the hex-decoded first piece equals the hex-decoded expected hex over the listed fields (all eligible ones when no list is given); a throwing comparison rejects |
| `ServerSignature.SignedWithListVerifies` | server.js:61-84 | round trip: an object carrying the token `makeSignatureWithList` made for it verifies, when its names can travel in the list |
| `ServerSignature.VerifyReadsTwoPieces` | server.js:74-75 | text after a second `|` never changes the verdict |
| `ServerSignature.EmptyListMeansAllFields` | server.js:74-75 | `hex|` verifies exactly as the bare `hex` does |
| `HtmlEscape.EscapeHtml` | server.js:231-238 | the five chained `replaceAll` calls equal the per-character entity escape, and leave no raw `<`, `>`, `"` or `'` |
| `HtmlEscape.PassesAreCharEscape` | server.js:232-237 | escaping `&` first means entities added by later passes are never escaped again |
| `HtmlEscape.UnescapeEscape` | server.js:231-238 | decoding the five entities recovers the original text, so escaping loses nothing |
| `HtmlEscape.EscapeHtmlInjective` | server.js:231-238 | values with different `String()` never escape alike |
| `HashUtils.LegacyPairs` | src/utils/hashUtils.ts:8 | one raw `key=value` pair per key, in the given order, the value interpolated with `String()` |
| `HashUtils.LegacyStringListsEveryField` | src/utils/hashUtils.ts:7-8 | every field, `signature` and null or undefined values included, has its `key=value` pair at its sorted position in the pair list, and that pair is one of the `&`-separated pieces of the legacy string |
| `HashUtils.LegacyStringCollides` | src/utils/hashUtils.ts:6-10 | `{a: "1&b=2"}` and `{a: "1", b: "2"}` get the same legacy string and therefore the same signature |
| `HashUtils.LegacyStringInjectiveOnPlainText` | src/utils/hashUtils.ts:7-8 | with no `&` or `=` in names and no `&` in values, the legacy string determines the names and their `String()` values |
| `HashUtils.LegacyDiffersFromCanonical` | src/utils/hashUtils.ts:8 | the legacy pair keeps a space raw where the canonical query writes `+` |

## Left out

- SHA-512, hex rendering and `Buffer.from(hex)` are foreign code and are taken as parameters. Properties that need a hex digest (no `|`, non-empty) are stated as preconditions on the parameter's result.
- `qs.stringify`'s internals are left out. Its per-component encoder with the RFC 1738 formatter is a parameter of the server helpers. Only flat objects are modelled; nested objects and arrays as field values, which `qs` would expand with `arrayFormat: "indices"`, are not.
- A `__proto__` field whose value is an object would replace the built object's prototype in the server's `reduce`. Field values here are primitives only, so the model always drops that field (`ServerSignature.Assigned`).
- `Number()` is a parameter. Numbers are integral safe integers only. Floating point, `NaN`, `-0` and exponent notation in `String()` are not modelled.
- Strings are sequences of Unicode scalar values, so lone surrogates cannot be represented. For them, `encodeURIComponent` would throw.
- `crypto.timingSafeEqual` is modelled by its result only. Its constant-time behaviour is outside a functional model.
- `RequestPreparer.prepare`'s `options` parameter is never read, so it is dropped. So is the second argument of `prepareSignedRequest`.
- The mutable static fields of `Gateway` are an immutable configuration record. `debug` is never read by the modelled code.
- Express routes, logging, `db.js`, `src/index.ts` and the use cases and controllers are not part of this model. They only call the modelled helpers or do I/O.
- `ServerSignature.MakeSignatureHex` and `HashUtils.GenerateSignature` carry no contract of their own. They only hash an encoding. Their properties are stated by `ServerSignature.ExpectedHexIgnoresUnlisted`, `ServerSignature.SignedWithListVerifies` and the `HashUtils` lemmas above.
