# License generator model

A Dafny model of the license-key generator component in
`src/LicenseGenerator.tsx`. The component takes a machine identifier and
trims it. It signs the identifier with HMAC-SHA-256 under a fixed salt and
renders the digest as upper-case hexadecimal. It keeps the first twelve
digits as a key of the form `XXXX-XXXX-XXXX`. It also keeps a history of
at most ten generations, most recent first. A record is added only when
its machine id differs from the one at the head.

Modules:

- `Wrappers`: `Option`, the outcome of the signing call.
- `JsText`: the JavaScript string operations the component uses:
  `Trim` for `trim` (the ECMAScript whitespace set it removes is written
  out in `IsWhitespace`), `Substring` (index clamping and swapping),
  `PadStart`, `ToUpperCase`, `Join` for `join('')` and `ToRadix16` for
  `Number.prototype.toString(16)`.
- `KeyFormat`: `HexEncode` is the hexadecimal rendering of the digest
  (line 54), `FormatKey` the 4-4-4 formatting (lines 56-57) and
  `DeriveKey` the two together, with lemmas on the shape of the key and on
  which digest bytes it depends on.
- `History`: the `Generation` record and `RecordIfNew`, the
  head-deduplicating, bounded prepend (lines 63-65). `RecordAll` folds it
  over successive `generateKey` calls; lemmas cover single and repeated
  recording.
- `Generator`: the component state as a class with fields `licenseKey`,
  `copied` and `history`, and the methods `Generate`, `Copy` and
  `ClearHistory` that overwrite them.

The keyed hash is a parameter `sign: (string, string) -> Option<seq<Byte>>`.
`Generate` calls it with the salt and the trimmed id. `None` stands for
a failure of `importKey` or `sign` (lines 39-51), which reaches the
`catch` before any state is set, so it leaves all state unchanged. The timestamp
(`Date.now()` in the source) is the parameter `now`.

## Model

| member | source | states |
|---|---|---|
| JsText.TrimStartIndex | src/LicenseGenerator.tsx:37 | the scan from the left stops at the first non-whitespace character, or at the end when there is none; everything it skipped is whitespace |
| JsText.TrimEndIndex | src/LicenseGenerator.tsx:37 | the scan from the right stops after the last non-whitespace character of the remaining range; everything it dropped is whitespace |
| JsText.Trim | src/LicenseGenerator.tsx:37 | the trimmed string is empty or has no whitespace at either end |
| JsText.TrimBlank | src/LicenseGenerator.tsx:29-32 | the trimmed string is empty exactly when the input is all whitespace (the blank-input guard) |
| JsText.TrimUnique | src/LicenseGenerator.tsx:37 | any infix with only whitespace around it and no whitespace at its own ends is the trimmed string |
| JsText.TrimIgnoresPadding | src/LicenseGenerator.tsx:37 | adding whitespace on either side of an id does not change its trimmed form |
| JsText.TrimFixedPoint | src/LicenseGenerator.tsx:37 | `trim` leaves a string unchanged exactly when neither end is whitespace |
| JsText.TrimIdempotent | src/LicenseGenerator.tsx:63-64 | trimming twice is trimming once, so the stored `machineId` is its own trimmed form |
| JsText.Substring | src/LicenseGenerator.tsx:56-57 | `substring` with in-range indices is the slice between them, swapped when the start is larger; an end past the length is clamped to it; indices both past the end give the empty string |
| JsText.PadStart | src/LicenseGenerator.tsx:54 | `padStart` yields at least the target width, the original string at the end and fill characters before it |
| JsText.ToUpperCase | src/LicenseGenerator.tsx:54 | same length; each of `a`-`z` becomes the matching upper-case letter, every other character is kept |
| JsText.ToUpperCaseAppend | src/LicenseGenerator.tsx:54 | upper-casing a concatenation upper-cases each part |
| JsText.ToRadix16 | src/LicenseGenerator.tsx:54 | `toString(16)` gives lower-case hex digits with no leading zero; one digit below 16, two digits from 16 to 255 |
| JsText.ToRadix16RoundTrip | src/LicenseGenerator.tsx:54 | reading back the digits of `toString(16)` gives the original number |
| KeyFormat.ByteHex | src/LicenseGenerator.tsx:54 | every byte is rendered in exactly two characters |
| KeyFormat.ByteHexNibbles | src/LicenseGenerator.tsx:54 | the padded rendering is the high nibble then the low nibble, with a leading `0` below 16 |
| KeyFormat.HexDigits | src/LicenseGenerator.tsx:53-54 | the reference rendering (high then low nibble of every byte, upper case) of an n-byte digest has 2n characters |
| KeyFormat.UpperByteHex | src/LicenseGenerator.tsx:54 | upper-casing the padded rendering of a byte gives its two nibbles in upper case |
| KeyFormat.HexEncodeIsHexDigits | src/LicenseGenerator.tsx:53-54 | the rendering through `toString(16)`, `padStart`, `join` and `toUpperCase` equals the reference rendering |
| KeyFormat.HexEncodeDigits | src/LicenseGenerator.tsx:53-54 | characters 2i and 2i+1 of the rendering are the upper-case high and low nibble of byte i |
| KeyFormat.HexEncodeIsUpperHex | src/LicenseGenerator.tsx:54 | every character of the rendering is in `0-9A-F` |
| KeyFormat.FormatKeyPrefix | src/LicenseGenerator.tsx:56 | only the first 12 characters of the rendering reach the key |
| KeyFormat.FormatKeyShape | src/LicenseGenerator.tsx:57 | twelve upper-case hex digits are formatted as `XXXX-XXXX-XXXX` |
| KeyFormat.FormatKeyOfTwelve | src/LicenseGenerator.tsx:56-57 | a twelve-character string is formatted as its three groups of four joined by hyphens |
| KeyFormat.RemoveHyphensOfFormat | src/LicenseGenerator.tsx:56-57 | removing the hyphens from a formatted twelve-character hyphen-free string gives it back |
| KeyFormat.RemoveHyphensOfShape | src/LicenseGenerator.tsx:56-57 | a key of the shape `XXXX-XXXX-XXXX` loses exactly its two hyphens, leaving its three groups in order |
| KeyFormat.FormatKeyRoundTrip | src/LicenseGenerator.tsx:56-57 | every key of the shape `XXXX-XXXX-XXXX` is the formatting of its own twelve digits |
| KeyFormat.DeriveKeyShape | src/LicenseGenerator.tsx:53-57 | for a digest of at least 6 bytes the key has length 14, `-` at indices 4 and 9, upper-case hex elsewhere |
| KeyFormat.DeriveKeyDigits | src/LicenseGenerator.tsx:56-57 | removing the two hyphens from the key gives exactly the first 12 hex characters of the digest |
| KeyFormat.HexPrefixToBytes | src/LicenseGenerator.tsx:53-54 | equal first 2n characters of the reference rendering imply equal first n bytes |
| KeyFormat.BytesToHexPrefix | src/LicenseGenerator.tsx:53-54 | equal first n bytes imply equal first 2n characters of the reference rendering |
| KeyFormat.DeriveKeyFirstSixBytes | src/LicenseGenerator.tsx:53-57 | two digests of at least 6 bytes give the same key if and only if their first 6 bytes agree |
| History.Take | src/LicenseGenerator.tsx:65 | `slice(0, n)` keeps the first min(length, n) elements in order |
| History.RecordIfNew | src/LicenseGenerator.tsx:63-65 | a head with the same id leaves the history unchanged; otherwise the new record is the head, the length is min(old + 1, 10) and the tail is the old first min(old, 9) records in order |
| History.RecordIfNewWellFormed | src/LicenseGenerator.tsx:63-65 | recording a trimmed non-empty id keeps at most 10 records, all ids trimmed and non-empty, no two neighbours with the same id |
| History.RepeatRecordedOnce | src/LicenseGenerator.tsx:63 | deriving the same id twice in a row records it once |
| History.ReappearsAfterOther | src/LicenseGenerator.tsx:63-65 | only the head is compared: id a, then b, then a again leaves a, b and an older a at the front |
| History.RecordAllNoRepeats | src/LicenseGenerator.tsx:63-65 | a run of derivations without consecutive repeats yields the derivations newest first before the old history, cut to 10 |
| History.LastTenKept | src/LicenseGenerator.tsx:65 | from an empty history, ten or more such derivations leave exactly the last ten, newest first |
| Generator.LicenseGenerator.constructor | src/LicenseGenerator.tsx:12-15 | initial state: empty key, not copied, empty history |
| Generator.LicenseGenerator.Generate | src/LicenseGenerator.tsx:28-72 | blank input clears the key and leaves the history; a failed signature changes nothing; otherwise the key is the derived key, copied is reset and the history is the recorded one; well-formedness is kept |
| Generator.LicenseGenerator.Copy | src/LicenseGenerator.tsx:74-78 | the copied flag is set; key and history unchanged |
| Generator.LicenseGenerator.ClearHistory | src/LicenseGenerator.tsx:80-83 | the history is empty from any prior state; key and flag unchanged |
| Generator.PaddingIgnored | src/LicenseGenerator.tsx:37-64 | an id with and without surrounding whitespace leaves two equal generators equal |
| Generator.ClearTwice | src/LicenseGenerator.tsx:80-83 | clearing twice gives the same state as clearing once |

## Left out

- HMAC-SHA-256 and the UTF-8 encoding by `TextEncoder` (lines 35-51) are foreign platform calls. They become the `sign` parameter, which may fail.
- Storage (lines 17-26, 67, 82) is left out: the load at start-up, `JSON.parse`/`JSON.stringify`, the write-through after recording and the removal on clear. The constructor starts from an empty history. A history loaded from storage need not be well formed, so `Generate` does not require `Valid()`; it only keeps it. A failing `localStorage.setItem` (line 67) also lands in the `catch`, but only after the key, the flag and the history have been set; the model treats that case as the successful branch, since the write itself is not modelled.
- The clipboard write and the 2000 ms timer that resets `copied` (lines 75, 77) are asynchronous side effects. `Copy` models only raising the flag.
- Overlapping asynchronous `generateKey` calls that read a stale `history` (lines 28, 63) are left out. The model runs each call to completion.
- `Date.now()` (line 64) is the parameter `now`. `console.error` on failure (lines 23, 70) is not modelled.
- JsText.ToUpperCase: maps only the ASCII letters, because the input is always hexadecimal digits; full Unicode case mapping is not modelled.
- JavaScript strings are UTF-16 code units, but the model uses Unicode characters, so lone surrogates cannot be expressed. The whitespace set of `trim` is ECMAScript's own.
- The input field's own state (`machineId`, line 12) and all rendering (lines 85-197, and `src/App.tsx`) are presentation only.
- KeyFormat.DeriveKeyShape: requires a digest of at least 6 bytes. HMAC-SHA-256 always gives 32 bytes. A shorter digest from `sign` gives the shorter string the source's clamping `substring` produces; `DeriveKey` models that case, but no lemma states it.
