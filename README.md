# unduck-cli bang resolver, modelled in Dafny

unduck-cli is a command-line take on the "bang" redirector. It turns a search query into a URL. The query may start with a bang such as `!gh`. A known bang sends the query to that bang's search template, or to its bare domain when nothing follows the bang. Anything else goes to the default bang `g`.

This project models the resolver in `app.ts` and proves what it does:

- `getRedirectUrl` is modelled twice. `Resolver.GetRedirectUrl` is a method that keeps the source's locals. `Resolver.Resolve` is the function that specifies it.
- The start-up code is modelled too: the bang table built from the records, and the check that the default bang is present.
- The parts of the ECMAScript library the resolver relies on are modelled as follows (the exceptions, `toLowerCase` outside ASCII and lone UTF-16 surrogates, are listed under "Left out"):
  - `trim` and the `\s`/`\S` classes, over the full WhiteSpace + LineTerminator set;
  - `toLowerCase`, for ASCII letters;
  - the two regular expressions, run with ECMAScript matching rules;
  - `encodeURIComponent`, through UTF-8;
  - the global `%2F` → `/` replacement;
  - `String.prototype.replace` with a string pattern, including GetSubstitution's `$` patterns.

Modules:

- `Wrappers`: `Option` and `Result`.
- `JsString`: white space, `trim`, `toLowerCase`, `indexOf`, `replace`.
- `UriEncoding`: the query encoding of line 81. It comes with a reference character-by-character encoding and a decoder (`decodeURIComponent`) that serves as its inverse.
- `BangPattern`: the pattern of line 39 and the stripping rule of line 56. There is also a declarative description of what counts as a match of line 39.
- `Bangs`: the bang record, the table fold of line 7, and the start-up check of lines 10-14.
- `Resolver`: `getRedirectUrl`, its properties, and worked examples.

`null` plus a `console.error` message becomes `Failure(e)`, where `e` is one of `EmptyQuery`, `MissingDomain(t)` and `MissingTemplate(t)`. `Resolve` requires the default bang in the table: the start-up check of lines 10-14 guarantees it before the resolver can run (see `Bangs.Startup`).

Two behaviours of the code are easy to miss; the model follows the code in both:

- **Table keys are not lowercased.** The code does not lower-case the keys: `new Map(bangs.map(b => [b.t, b]))` keys each record by its trigger as written. Looked-up triggers are lowercased, so a record whose trigger contains an uppercase ASCII letter can never be selected (`Bangs.UppercaseTriggerUnreachable`).
- **A line break in the remainder cancels the bang.** `.` does not match a line terminator, so a query such as `!gh foo` + newline + `bar` fails the pattern at line 39. It is then searched in full, bang included, with the default bang. `BangPattern.LineTerminatorDefeatsMatch` proves this. For the same reason, `Resolver.TriggerCaseInsensitive` needs a remainder with no line terminator after the separating white space: with one, `!GH …` and `!gh …` search different texts. A line break that is only part of the separating white space is harmless, because `\s+` takes it.

## Model

| member | source | states |
|---|---|---|
| Resolver.GetRedirectUrl | app.ts:16-86 | The method on the source's locals (`selectedBang`, `cleanQuery`, `bangUsed`, the match, the candidate trigger, the encoded query), with its early returns, computes exactly `Resolve(table, query)` |
| Resolver.Resolve | app.ts:16-86 | The specification of `getRedirectUrl`; characterised by `GetRedirectUrl` and by the `Resolver` lemmas below (`EmptyQueryRejected`, `NoBangUsesDefault`, `KnownBangAlone`, `KnownBangWithQuery`, `UnknownTriggerUsesDefault`, `TriggerCaseInsensitive`) |
| Resolver.Select | app.ts:28-60 | The choice of bang, effective query and bang flag; characterised by `NoBangUsesDefault`, `KnownBangWithQuery`, `UnknownTriggerUsesDefault` and `SelectCaseInsensitive` |
| Resolver.DomainOnly | app.ts:63-70 | The bare-domain answer for a bang used alone; characterised by `KnownBangAlone` |
| Resolver.SearchUrl | app.ts:73-85 | The template search or its domain fallback; characterised by `SearchUrlSpec`, `TemplateSearch` and `PlainSearch` |
| BangPattern.Match | app.ts:39 | The matcher for the pattern of line 39; characterised by `MatchSound`, `MatchComplete`, `LineTerminatorDefeatsMatch` and `CaptureStartsClean` |
| BangPattern.StripBang | app.ts:56 | The stripping rule of line 56; characterised by `StripAgreesWithCapture` and `SplitAtTrigger` |
| UriEncoding.EncodeURIComponent | app.ts:81 | `encodeURIComponent` through UTF-8; characterised through `EncodeQueryPiecewise`, `EncodeQueryRoundTrip` and `QueryPiece` |
| UriEncoding.RestoreSlashes | app.ts:81 | The global `%2F` → `/` replacement; characterised by `EncodeQueryPiecewise` and `SlashesKept` |
| UriEncoding.EncodeQuery | app.ts:81 | The query encoding of line 81; characterised by `EncodeQueryPiecewise`, `EncodeQueryShape`, `EncodeQueryRoundTrip`, `SlashesKept` and `PiecewiseAppend` |
| JsString.ReplaceFirst | app.ts:84 | `replace` with a string pattern; characterised by `ReplaceFirstLiteral`, and through `SearchUrlSpec` in the resolver |
| JsString.Expand | app.ts:84 | GetSubstitution's `$` patterns; characterised by `ExpandLiteral` |
| Resolver.EmptyQueryRejected | app.ts:20-24 | The result is `Failure(EmptyQuery)` exactly when the query is empty or all white space; every other query gets past this check |
| Resolver.NoBangUsesDefault | app.ts:26-29 | When the trimmed query is nonempty and does not match the bang pattern, the result is the default bang's search for exactly the trimmed query |
| Resolver.NoExclamationNoBang | app.ts:39 | A trimmed query that does not start with `!` never matches the bang pattern |
| Resolver.CaptureOfTrimmed | app.ts:49 | On a trimmed query, capture 2 (or `""`) is already trimmed and is never empty when present, so the `.trim()` of line 49 changes nothing |
| Resolver.KnownBangAlone | app.ts:63-70 | `!t` alone with `t` known gives `"https://" + d` when `d` is truthy, and `MissingDomain(t)` otherwise; the template is never consulted |
| Resolver.KnownBangWithQuery | app.ts:41-50 | A known trigger followed by a remainder gives that bang's search for exactly capture 2 |
| Resolver.UnknownTriggerUsesDefault | app.ts:51-58 | An unknown trigger is never an error: the default bang searches for capture 2, or `""` when nothing follows |
| Resolver.UnknownTriggerAlone | app.ts:51-58 | `!word` alone with `word` unknown is the default search for the empty string |
| Resolver.UnknownTriggerIsSearchOfRest | app.ts:51-58 | When `!unknown rest` matches the bang pattern, and `rest` is nonempty and has no bang syntax itself, it resolves exactly as `rest` alone does |
| Resolver.TriggerCaseInsensitive | app.ts:39-43 | Two triggers with the same lowercase form, followed by the same remainder (empty or starting with white space, and free of line breaks once trimmed), give identical results |
| Resolver.SelectCaseInsensitive | app.ts:39-58 | For a remainder with no line terminator after its leading white space, the selected bang, the effective query and the do-we-use-a-bang flag are the same for both spellings of the trigger |
| Resolver.SearchUrlSpec | app.ts:73-84 | With a template, only the first `{{{s}}}` is replaced by the encoded query, with the text before and after it unchanged, and a template without a placeholder comes back as it is; without a truthy template, the result is `"https://" + d` or `MissingTemplate(t)` |
| Resolver.TrailingPlaceholder | app.ts:84 | A template that ends in its placeholder, with no `{` before it, yields its prefix followed by the replacement |
| Resolver.TemplateSearch | app.ts:73-84 | A bang whose template is `prefix + "{{{s}}}"`, with no `{` in the prefix, searches at `prefix + EncodeQuery(q)` |
| Resolver.PlainSearch | app.ts:73-84 | The same, for a query that needs no escaping and a prefix with no `{`: the URL is `prefix + q` |
| Resolver.BangThenRest | app.ts:39 | `!t rest` (with `rest` free of line breaks and not starting or ending with white space) is already trimmed and matches with captures `t` and `rest` |
| Resolver.ExampleDefaultSearch | app.ts:105-106 | `hello world` resolves to the Google search for `hello%20world` |
| Resolver.ExampleBangSearch | app.ts:101-102 | `!gh t3dotgg/unduck` resolves to `https://github.com/search?q=t3dotgg/unduck`, with the slash kept |
| Resolver.ExampleBangAlone | app.ts:103-104 | `!gh` resolves to `https://github.com` |
| Resolver.ExampleUnknownBang | app.ts:51-58 | `!zz something`, with `zz` unknown, resolves to the default search for `something` |
| BangPattern.MatchSound | app.ts:39 | Whatever the matcher returns is a parse of the input under the pattern: `!`, a nonempty non-white-space trigger, and either the end of input or a nonempty white-space run and a remainder without line terminators |
| BangPattern.MatchComplete | app.ts:39 | Every parse makes the matcher succeed with the same trigger (the `\S+` run is forced), and, when the optional group is used, with a capture 2 no longer than that parse's (greedy `\s+`) |
| BangPattern.LineTerminatorDefeatsMatch | app.ts:39 | `!t`, white space, then a remainder containing a line terminator does not match at all |
| BangPattern.SplitAtTrigger | app.ts:39-56 | For `!` + trigger + a tail that is empty or starts with white space, both patterns take exactly that trigger, and the stripping rule leaves the tail without its leading white space |
| BangPattern.StripAgreesWithCapture | app.ts:39-56 | Wherever line 39 matches, the stripping rule of line 56 leaves exactly capture 2, or `""`, and so does its `.trim()` |
| BangPattern.CaptureStartsClean | app.ts:39 | Capture 2 never starts with white space |
| Bangs.BuildTable | app.ts:7 | The table has a key exactly when some record has that trigger; each key maps to a record with that trigger; for each trigger, the last such record wins |
| Bangs.BuildTableLastWins | app.ts:7 | For any key: present exactly when some record has it, and then mapped to the last record that has it |
| Bangs.Startup | app.ts:10-14 | Start-up succeeds exactly when some record has the default trigger `g`; the table is then the built table and maps `g` to a bang with trigger `g` |
| Bangs.UppercaseTriggerUnreachable | app.ts:42-43 | A key containing an uppercase ASCII letter is never the lowercased form of any typed trigger |
| JsString.Trim | app.ts:20-26 | The trim is the slice between a white-space prefix and a white-space suffix; it is empty exactly when the input is all white space, and otherwise starts and ends with non-white space |
| JsString.TrimTrimmed | app.ts:26 | A string that neither starts nor ends with white space is its own trim |
| JsString.TrimIdempotent | app.ts:49 | Trimming twice is trimming once |
| JsString.TrimStartOfTrimEnd | app.ts:26 | Trimming the end first and then the start gives the trim |
| JsString.TrimEndAppend | app.ts:26 | Trailing white space after the last non-white-space character of a prefix is removed from the suffix alone |
| JsString.LowerChar | app.ts:42 | Lowercasing a character yields no uppercase ASCII letter, maps `A`–`Z` to `a`–`z`, leaves every other character unchanged, and preserves white space |
| JsString.ToLower | app.ts:42 | `toLowerCase` keeps the length and lowers each character |
| JsString.ToLowerIdempotent | app.ts:42 | Lowering twice is lowering once, and the result has no uppercase ASCII letter |
| JsString.IndexOf | app.ts:84 | The index returned is an occurrence with no earlier occurrence; `None` means there is no occurrence at all |
| JsString.IndexOfAt | app.ts:84 | An occurrence with no earlier character that could start the pattern is the first one |
| JsString.ExpandLiteral | app.ts:84 | A replacement text without `$` is inserted literally |
| JsString.ReplaceFirstLiteral | app.ts:84 | With a `$`-free replacement, `replace` cuts at the first occurrence and inserts the replacement there unchanged, leaving the text around it as it was; with no occurrence, it returns the input |
| UriEncoding.QueryPiece | app.ts:81 | A character is kept as itself exactly when it is `/` or unreserved; every other character becomes the uppercase `%XX` escapes of its UTF-8 bytes |
| UriEncoding.Utf8 | app.ts:81 | A character's UTF-8 form is 1 to 4 bytes: one byte holding the code point below U+0080, otherwise bytes that are all 0x80 or above |
| UriEncoding.EncodeQueryPiecewise | app.ts:81 | `encodeURIComponent` followed by the global `%2F` → `/` replacement equals the character-by-character encoding, so `/` comes back exactly where it was and no other escape is touched |
| UriEncoding.EncodeQueryShape | app.ts:81-84 | The encoded query consists only of unreserved characters, `/` and uppercase `%XX` escapes; it never contains `%2F` and never contains `$` |
| UriEncoding.SlashesKept | app.ts:81 | The encoded query has exactly as many `/` as the input |
| UriEncoding.EncodeQueryRoundTrip | app.ts:81 | Decoding the encoded query with `decodeURIComponent` gives back the input |
| UriEncoding.Utf8RoundTrip | app.ts:81 | UTF-8 decoding undoes the UTF-8 encoding of any string |
| UriEncoding.EncodeQueryPlain | app.ts:81 | Text made only of unreserved characters and `/` is left unchanged |
| UriEncoding.EncodeQuerySpaceJoined | app.ts:81 | A space between two runs of plain text becomes `%20` |
| UriEncoding.PiecewiseAppend | app.ts:81 | The encoding of a concatenation is the concatenation of the encodings |

## Left out

- The command-line plumbing of lines 88-122 is not modelled: `process.argv`, the usage text, `console.log` and `process.exit`. The resolver's input there is `args.join(" ")`, which the model takes as an arbitrary string.
- The `console.error` diagnostics of lines 12, 22, 67 and 75 are replaced by the error kinds. Line 75 prints even when the domain fallback of line 77 succeeds; the model returns the domain URL and drops the message.
- The `./bang` data file is not part of this model. The table is the fold of an arbitrary sequence of records. Resolver lemmas take an arbitrary table holding `g`.
- Bang records carry further fields (name, category and so on) that the resolver never reads; `Bang` keeps only `t`, `d` and `u`.
- The start-up exit (`process.exit(1)` at line 13) is the `Failure(DefaultBangNotFound)` of `Bangs.Startup`.
- JsString.LowerChar: maps only ASCII `A`–`Z` to lower case and leaves every other character unchanged; JavaScript's `toLowerCase` also lowers non-ASCII letters.
- JsString.ToLower: maps only ASCII `A`–`Z`, through `LowerChar`. JavaScript applies full Unicode case mapping, which can change other letters and even the length of a string.
- JsString.IsWhitespace: is fixed at the Unicode 15 space separators. A later Unicode version could add characters to the Zs category.
- Characters are Unicode scalar values, not UTF-16 code units. The `URIError` that `encodeURIComponent` throws on a lone surrogate therefore cannot arise in the model.
- UriEncoding.DecodeQuery: accepts only ASCII literal characters between escapes, which is all the encoder produces. It is the inverse partner of the encoder, not a full model of `decodeURIComponent`.
- Resolver.TriggerCaseInsensitive: requires no line terminator after the separating white space, i.e. none in the trimmed remainder. With such a line break, the source itself gives different results for `!GH …` and `!gh …`, because the whole query is then searched as typed.
