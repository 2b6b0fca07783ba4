# UUID line converter: a Dafny model of its core

The application is a single browser script, `app.js`. Its core turns pasted text
into an array literal, one double-quoted item per non-empty line. Each conversion
is recorded in a history ledger kept in the browser's local store; the ledger is
rendered, cleared and exported on demand. Around that core sit three small pieces
of arithmetic, modelled here as well:

- the version comparison that decides whether to offer an update;
- `hexToRgb`, which reads `#rgb` / `#rrggbb` colour codes;
- `rgbToHex`, which writes them.

The model is pure functions over immutable values:

- strings are `seq<char>`;
- numbers are unbounded integers;
- the outcome of every call into the browser (reading and writing local storage,
  the confirmation dialog, the clipboard, the download) is a parameter.

Modules, one file each:

| module | file | models |
|---|---|---|
| `Wrappers` | `wrappers.dfy` | `Option` |
| `Text` | `text.dfy` | the string methods the script relies on: `split`, `join`, `replace` with a global pattern, `replace` with a string, `trim` with the ECMAScript whitespace set |
| `JsNumber` | `jsnumber.dfy` | `parseInt(s, 10)`, `parseInt(s, 16)` and `n.toString(16)` on integers |
| `Converter` | `converter.dfy` | `normalizeLine`, `linesFromInput`, and the string built by `convert`; a decoder for the produced literal, used to state the round trip |
| `Html` | `html.dfy` | `escapeHtml`; a per-character reference map; a decoder |
| `History` | `history.dfy` | the ledger: `addToHistory`, `updateHistoryBadge`, `renderHistory`, the clear and export handlers, and the badge set at start-up |
| `Semver` | `semver.dfy` | `compareSemver`, and the update decision in `checkRemoteVersion` |
| `Color` | `color.dfy` | `hexToRgb` (32-bit shifts and masks written out) and `rgbToHex` |

Every operation has a partner: an inverse (a decoder), an independent reference
definition, or an invariant it keeps. A lemma over all inputs connects the two.

## Model

| member | source | states |
|---|---|---|
| Converter.NormalizeLine | app.js:460-469 | The result has no carriage return and is no longer than the cleaned (CR-free, trimmed) input. |
| Converter.NormalizeLineUnwraps | app.js:461-468 | After removing CRs and trimming, the input is exactly the result wrapped in the one quote layer it carried (`"…"`, `'…'`, `\"…\"`, `\'…\'` or none). A bare `\"` or `\'` becomes empty. |
| Converter.NormalizeLineOfWrap | app.js:462-466 | Wrapping a CR-free body in one quote layer and normalizing gives back the body unchanged, even if the body has quotes or whitespace of its own. Only one layer is stripped and the body is not trimmed again. |
| Converter.NormalizeLineKeepsCharacters | app.js:460-469 | Normalization adds no character: anything in the result was in the input. |
| Converter.LinesFromInput | app.js:471-475 | A `null` input gives no lines. Otherwise every line is non-empty and free of `\n` and `\r`, and there are at most as many lines as newline-separated pieces. |
| Converter.NormalizedLinesShape | app.js:474 | Filtering keeps only non-empty, CR-free lines. If no piece contained a newline, no line does. |
| Converter.NormalizedLinesConcat | app.js:474 | Map-then-filter distributes over concatenation of the piece lists. |
| Converter.LinesOfSingleLine | app.js:471-475 | A text with no newline yields its normalized self, or nothing when that is empty. |
| Converter.LinesOfNewline | app.js:473-474 | The lines of `a + "\n" + b` are the lines of `a` followed by the lines of `b`. |
| Converter.LinesOfCleanLines | app.js:471-475 | Already-normalized, non-empty lines joined by newlines come back unchanged. |
| Converter.EscapeQuotes | app.js:495 | Escaping lengthens the text by exactly the number of `"` in it, and adds or removes no newline. |
| Converter.UnescapeEscapeQuotes | app.js:495 | Escaping `"` as `\"` is undone by the decoder, so nothing but the quotes changes. |
| Converter.EscapedHead | app.js:495 | An escaped non-empty line never starts with a bare `"`. |
| Converter.QuoteLine | app.js:495 | An item starts and ends with `"` and contains a newline exactly when its line does. |
| Converter.DecodeQuoteLine | app.js:495 | Decoding a quoted item gives back its line. |
| Converter.Convert | app.js:492-496 | The output starts with `[\n` and ends with `\n]`. It is exactly `[\n\n]` when no line survives normalization. |
| Converter.ConvertRoundTrip | app.js:494-496 | Decoding the output of `convert` gives back exactly the lines of its input. |
| Converter.DecodeJoinedItems | app.js:495-496 | The `,\n`-joined quoted items of newline-free lines decode back to those lines. |
| Converter.ConvertCleanLines | app.js:492-496 | For already-normalized lines the output is `[\n`, the quoted lines joined by `,\n`, then `\n]`. |
| Converter.ConvertEmptyInput | app.js:492-496 | An empty input gives `[\n\n]`. |
| Converter.ConvertThreeLines | app.js:492-496 | `a\nb\nc` gives `["a",\n"b",\n"c"]` with newlines after `[` and before `]`. |
| Html.EscapeHtml | app.js:326-331 | The escaped text contains no `<` and no `>`. |
| Html.EscapeHtmlIsPerChar | app.js:326-331 | The three global replacements, in their order, equal a per-character map: `&`, `<` and `>` become their entities and every other character is kept. |
| Html.UnescapeEscapeHtml | app.js:326-331 | Escaping is undone by entity decoding, so the shown text is the original. |
| Html.EscapedAmpersands | app.js:328-330 | Every `&` in the escaped text starts one of `&amp;`, `&lt;`, `&gt;`. |
| Html.OrderMatters | app.js:328-330 | Replacing `&` first is what makes the map per-character: done last, it would turn `<` into `&amp;lt;`. |
| History.BadgeFor | app.js:319-324 | The badge shows the given length, and is visible exactly when that length is positive. |
| History.Init | app.js:559-561 | At start-up the badge shows the length of what can be read from the store, so ledger and badge agree. |
| History.Append | app.js:309-317 | On a successful write the new record is first and the old records follow unchanged. A failed write leaves the store as it was. Either way the badge shows one more than was read, and is visible. |
| History.AppendKeepsConsistent | app.js:309-324 | A successful append keeps the badge equal to the stored length. |
| History.AppendWriteFailure | app.js:313-316 | When the write fails the badge runs one ahead of the store. |
| History.AppendAllNewestFirst | app.js:314 | After several successful appends the store holds the new records newest first, ahead of the old ones. |
| History.AppendAllConsistent | app.js:309-324 | After one or more successful appends the badge equals the stored length. |
| History.ConvertAndRecord | app.js:492-498 | Every conversion, an empty one included, returns the produced literal and sets the badge to one more than the number of stored records read. When the write succeeds, the store holds the raw input with that literal, in front of the old records. |
| History.ConvertRaisesBadge | app.js:313-316 | From a ledger whose badge agrees with its store, a conversion raises the badge by one, whether or not its write succeeds. |
| History.Render | app.js:333-344 | "No records" exactly when the store reads empty. Otherwise there is one entry per record, with its position as index, and no shown field contains `<` or `>`. |
| History.RenderShowsRecords | app.js:339-344 | Each rendered field decodes back to its record's field, and has no bare `&`. |
| History.RenderAfterFirstAppend | app.js:309-344 | After the first append, rendering shows one entry, at index 0, whose header, input and output decode to that record's time, input and output. |
| History.Clear | app.js:387-393 | Without confirmation nothing changes. With it the badge is hidden at 0. After a successful removal the store reads empty and renders "no records"; after a failed one the store is untouched. |
| History.ClearKeepsConsistent | app.js:387-393 | A successful clear keeps badge and store in agreement. |
| History.Export | app.js:396-423 | "Nothing to export" exactly when the store reads empty. Otherwise the whole stored list is the payload, the copy acknowledgement follows the clipboard outcome, and the manual-copy alert follows a failed download. |
| History.ExportAfterClear | app.js:387-400 | After a confirmed, successful clear there is nothing to export. |
| Semver.CompareSemver | app.js:38-48 | The result is -1, 0 or 1, and it is 0 when either side is empty. |
| Semver.CompareZeroIff | app.js:42-47 | Comparison gives 0 exactly when the component lists agree after padding the shorter one with zeros. |
| Semver.CompareOneIff | app.js:42-46 | Comparison gives 1 exactly when, at the first padded position where they differ, the left component is larger. |
| Semver.CompareSemverAntisymmetric | app.js:38-48 | Swapping the arguments negates the result. |
| Semver.CompareSemverReflexive | app.js:38-48 | Every version compares equal to itself. |
| Semver.CompareSemverTransitive | app.js:38-48 | "Newer than" is transitive. |
| Semver.SameVersionNotTransitive | app.js:39 | "Compares equal" is not transitive: the empty version equals everything. |
| Semver.TrailingZeroIgnored | app.js:40-43 | A trailing `.0` makes no difference. |
| Semver.NumericNotTextual | app.js:40-45 | Components compare as numbers, so `1.10` is newer than `1.9`. |
| Semver.ShouldOfferUpdate | app.js:100-103 | An update is offered exactly when a non-empty remote version compares newer than the running one. |
| Semver.OfferIsStrict | app.js:100-103 | The running version is never offered to itself, and of two versions at most one is offered over the other. |
| Semver.RunningVersionNotOffered | app.js:100-103 | Version 1.1.5, written as such or with a trailing `.0`, is not offered to itself. |
| Color.HexToRgb | app.js:154-159 | Each of the three components is a byte. |
| Color.HexToRgbBytes | app.js:157-158 | Shifting and masking the 32-bit value reads bytes 2, 1 and 0 of the parsed integer, whatever its size or sign. |
| Color.SixDigitReference | app.js:154-159 | Six hex digits, with or without `#`, give the values of their three digit pairs. |
| Color.ShortFormExpands | app.js:155-156 | `#rgb`, and `rgb` without a `#` of its own, read like `#rrggbb`. |
| Color.ShortFormValues | app.js:155-158 | Each digit of `rgb` or `#rgb` gives 17 times its value. |
| Color.UnreadableIsBlack | app.js:155-158 | The result is black whenever `parseInt` cannot read the text left after removing the first `#` and expanding a short form. |
| Color.ZzzIsBlack | app.js:155-158 | `#zzz` gives black. |
| Color.MinusOneIsWhite | app.js:157-158 | A negative number is read in 32-bit two's complement: `-1` gives white. |
| Color.RgbToHex | app.js:160-163 | The result is `#` followed by six characters. |
| Color.ByteHexPair | app.js:161 | For a non-negative integer, `toString(16)` padded and cut to two places is two lower-case hex digits worth the integer modulo 256. |
| Color.HexOfRgbRoundTrip | app.js:154-163 | Reading back a written colour gives each non-negative component modulo 256. |
| Color.CanonicalSpelling | app.js:154-163 | A lower-case `#rrggbb` is written back exactly as it was read. |
| JsNumber.ParseHexOfToHexString | app.js:157-161 | `parseInt(n.toString(16), 16)` is `n` for every integer. |
| Text.TrimSpec | app.js:461 | `trim` keeps the infix between leading and trailing whitespace. The result is empty exactly when the input is all whitespace. |
| Text.SplitJoin | app.js:473 | Joining separator-free pieces and splitting again gives back the pieces. |
| Text.JoinSplit | app.js:473 | Splitting a string and joining the pieces with the same separator gives back the string. |

## Left out

- DOM and UI wiring: the click, key and modal handlers; the success animation of `convert`; the button labels and their timers; and the early return of `convert` and `renderHistory` when an element is missing.
- `updateHistoryBadge` when the badge element is missing: the model always has a badge.
- History.Render: the entries are modelled as records of escaped fields with their index. The HTML markup around them is not modelled.
- History.Export: the payload is the list of records. The two-space JSON text written to the clipboard and the file is not modelled. The file name is modelled.
- Local storage, `JSON.parse` and `JSON.stringify`: a read gives `Absent`, `Unreadable` or `Saved(records)`. A write and a removal succeed or fail through a parameter. A stored value that parses to something other than an array is not modelled.
- `toLocaleString`: the record's time is a parameter.
- `confirm`, the clipboard API and the Blob download: their outcomes are parameters.
- `checkRemoteVersion`'s fetch, timers and JSON parsing: the model starts from the parsed `version` field, given as an `Option<string>`. `String(…)` of a non-string version is not modelled. `window.APP_VERSION` is taken as its default, `1.1.5`.
- The theme, the accent palette, `rgbToHsl`, `hslToRgb` and `darkenHex`: floating point and presentation, outside the core.
- Color.RgbToHex: components are integers, so `Math.round` is the identity. Rounding of fractional components is not modelled.
- Semver.CompareSemver: components are exact integers. `parseInt` returns a double, so digit runs above 2^53 round, and past about 10^308 become Infinity. For example, `9007199254740993` and `9007199254740992` compare equal in the script but not in the model.
- Color.HexToRgb: the parsed value is an exact integer. Past 2^53 the script's double rounds first, so `#20000000000001` is black in the script but `Rgb(0, 0, 1)` in the model.
- Color.HexToRgb: the length-3 test and `split('')` count Unicode scalar values. The script counts UTF-16 code units. For input outside the Basic Multilingual Plane, such as `#a😀`, the script sees three units and expands them; the model sees two characters and does not expand.
- JsNumber.ParseInt: radices 10 and 16 only, the two the script uses. The value is exact rather than a rounded double.
