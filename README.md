# Template rendering and formatting helpers — a Dafny model

This project models the two small libraries at the heart of the e-mail
service: the template renderer (`lib/renderTemplate.js`) and the formatting
helpers (`lib/fmt.js`).

* **Template cache** (`TemplateCache`). `loadTemplate` resolves a file name to
  an absolute path, returns the cached text when the path is known, and
  otherwise reads the file and stores it. The process-wide `CACHE` is the
  class `Cache` with one `map` field; `LoadStep` is the function that
  specifies one load, and the lemmas prove that an entry, once written, is
  never overwritten and that a warm hit ignores the file system.
* **Template scan** (`TemplateScan`). `renderTemplate` replaces every match of
  `\{\{\s*([\w.]+)\s*\}\}` with the string form of the value its dotted key
  reaches in the data. `MatchToken` is the regular expression as a greedy
  matcher (each of its three runs has a class disjoint from the next run's,
  and none contains `}`, so greedy matching finds exactly what the
  backtracking engine finds); `Render` is the global,
  left-to-right, non-overlapping replacement. Soundness and completeness of
  the matcher, literal text passing through, replacements not being scanned
  again, white space inside the braces being ignored and missing keys
  vanishing are proved about it.
* **Data and lookup** (`TemplateData`). The data is a JavaScript-like value;
  `Lookup` follows the `v?.[p]` chain one segment at a time, `Display` is the
  `null`/`undefined` → `""`, else `String(v)` step, and `Substitute` is the
  replacement callback with its loop.
* **`encodeURIComponent`** (`UriComponent`). UTF-8 encoding of each character
  and percent-escaping of every byte except the unreserved set, with upper-case
  hex digits. A decoder is defined as its partner, and `Decode(Encode(s)) ==
  Some(s)` is proved for every string.
* **Formatting** (`Fmt`). `validateAndFormatPhoneNumber` keeps the ASCII digits
  and lays ten of them out as `(ddd) ddd-dddd`, or gives `null`; `pbFileUrl`
  falls back to the `PB_HOST` setting for a falsy base, drops one trailing `/`
  and appends `/api/files/<collection>/<record>/<encoded file name>`.

`wrappers.dfy` holds the `Option`/`Result` datatypes and `text.dfy` the `\d`
character class and one sequence lemma shared by the modules.

## Model

| member | source | states |
|---|---|---|
| TemplateData.Step | lib/renderTemplate.js:26 | one `v?.[p]`: an object's own property, or `undefined`; its meaning along a path is given by LookupAppend, MissingSegmentIsUndefined and AbsentPrefixStaysAbsent |
| TemplateData.Lookup | lib/renderTemplate.js:25-26 | the `for` loop of `v = v?.[p]` over the parts; specified by LookupAppend, MissingSegmentIsUndefined and AbsentPrefixStaysAbsent, and computed by Substitute's loop |
| TemplateData.IntToString | lib/renderTemplate.js:27 | `String(n)` for a safe integer; IntToStringRoundTrip shows it is a sign and digits that read back as `n` |
| TemplateData.SplitKey | lib/renderTemplate.js:24 | splitting a key on `.` yields at least one part and no part contains a `.` |
| TemplateData.JoinSplitKey | lib/renderTemplate.js:24 | joining the parts of a split key with `.` gives the key back |
| TemplateData.SplitJoinKey | lib/renderTemplate.js:24 | splitting a `.`-join of dot-free parts gives those parts back, so the split is lossless |
| TemplateData.LookupAppend | lib/renderTemplate.js:25-26 | following a path `a + b` is following `a`, then `b` from where `a` ended |
| TemplateData.MissingSegmentIsUndefined | lib/renderTemplate.js:26 | once a segment names a field the current value does not have (or the value is not an object), the whole lookup is `undefined` |
| TemplateData.AbsentPrefixStaysAbsent | lib/renderTemplate.js:26-27 | optional chaining: a `null`/`undefined` reached part-way makes the final value `undefined`, never an error |
| TemplateData.IntToStringRoundTrip | lib/renderTemplate.js:27 | the decimal form used by `String(n)` for integers parses back to `n` |
| TemplateData.Display | lib/renderTemplate.js:27 | the output is empty exactly for `null`, `undefined` and the empty string; a string is inserted as is |
| TemplateData.Substitute | lib/renderTemplate.js:24-27 | the callback's loop over the key's parts computes the display form of the value the whole path reaches |
| TemplateScan.MatchToken | lib/renderTemplate.js:23 | one attempt of the regular expression at the start of the text; a match spans at least five characters; MatchTokenSound and MatchTokenAt fix it to exactly the pattern's matches |
| TemplateScan.Render | lib/renderTemplate.js:23-28 | the global, left-to-right replace; RenderLiteralPrefix and RenderToken give its two steps, and the lemmas below its behaviour |
| TemplateScan.RunLengthSpec | lib/renderTemplate.js:23 | a `\s*` or `[\w.]+` run covers only characters of its class and stops at the first character outside it |
| TemplateScan.MatchTokenSound | lib/renderTemplate.js:23 | every match is `{{`, white space, a non-empty key of `[\w.]`, white space, `}}`, and the captured key is exactly the key characters |
| TemplateScan.MatchTokenAt | lib/renderTemplate.js:23 | conversely, any text laid out as the pattern says is matched, with that key and that length |
| TemplateScan.MatchTokenComplete | lib/renderTemplate.js:23 | every token built from white space, a key and white space is matched with its own key and full length, whatever follows |
| TemplateScan.RenderLiteralPrefix | lib/renderTemplate.js:23 | characters at which no match starts are copied to the output one for one |
| TemplateScan.NoTokenUnchanged | lib/renderTemplate.js:23 | a template with no match anywhere renders to itself, whatever the data |
| TemplateScan.NoBraceIsLiteral | lib/renderTemplate.js:23 | text without `{` is copied and rendering continues after it |
| TemplateScan.UnclosedGroupNoMatch | lib/renderTemplate.js:23 | a character outside `\s`, `[\w.]` and `}` before the first `}` rules a match out |
| TemplateScan.MatchBodyIsTokenBody | lib/renderTemplate.js:23 | what a match covers between `{{` and `}}` is white space, a key and white space |
| TemplateScan.MatchClosesAtFirstBrace | lib/renderTemplate.js:23 | a match closes at the first `}` after the opening braces |
| TemplateScan.GroupMatchIsBody | lib/renderTemplate.js:23 | the pattern matches a group `{{s}}` with no `}` in `s` only when `s` is white space, a key and white space |
| TemplateScan.MalformedGroupVerbatim | lib/renderTemplate.js:23 | a brace group whose content has no braces and is not white space, a key of `[\w.]` and white space stays verbatim, and scanning resumes after it |
| TemplateScan.TokenBodyChars | lib/renderTemplate.js:23 | a token body holds only white space and key characters, and not only white space |
| TemplateScan.TokenBodyOneKey | lib/renderTemplate.js:23 | a token body has no white space between two key characters |
| TemplateScan.BlankGroupVerbatim | lib/renderTemplate.js:23 | `{{}}` and a group of white space only stay verbatim |
| TemplateScan.SpacedKeyVerbatim | lib/renderTemplate.js:23 | two keys separated by white space, as in `{{first name}}`, stay verbatim |
| TemplateScan.RenderToken | lib/renderTemplate.js:23-27 | a token is replaced by the display form of the value its split key reaches, and the replacement is not scanned again |
| TemplateScan.WhitespaceIgnored | lib/renderTemplate.js:23 | white space inside the braces does not change the output |
| TemplateScan.AbsentTokenVanishes | lib/renderTemplate.js:26-27 | a token whose value is missing, `null` or `undefined` renders as nothing |
| TemplateScan.NestedPathExample | lib/renderTemplate.js:21-28 | `{{a.b}}` with `{a: {b: "x"}}` renders as `x` |
| TemplateScan.MissingKeyExample | lib/renderTemplate.js:21-28 | `{{missing}}` with `{}` renders as the empty string |
| TemplateScan.NoRescanExample | lib/renderTemplate.js:21-28 | `{{ x }}!` with `x` bound to `"{{x}}"` renders as `{{x}}!`: inserted values are not rendered again |
| TemplateCache.LoadStep | lib/renderTemplate.js:7-13 | a load succeeds exactly when the path is cached or the file exists; a miss returns and stores exactly the file's text; a failed load leaves the cache as it was; every existing entry is kept unchanged and at most the requested path is added |
| TemplateCache.WarmHitIgnoresFiles | lib/renderTemplate.js:9 | after a successful load, loading the same path again returns the same text and cache whatever the file system now holds |
| TemplateCache.EntryNeverOverwritten | lib/renderTemplate.js:9-11 | across any sequence of loads, a cached entry keeps its text |
| TemplateCache.Cache.constructor | lib/renderTemplate.js:5 | the cache starts empty |
| TemplateCache.Cache.Load | lib/renderTemplate.js:7-13 | the method's result and new cache are those of `LoadStep` on the old cache and the resolved path |
| TemplateCache.Cache.RenderFile | lib/renderTemplate.js:21-28 | rendering a file loads it through the cache and renders the loaded text with the data, or reports the missing file |
| TemplateCache.ColdThenWarm | lib/renderTemplate.js:7-28 | a cold render succeeds exactly when the file exists, and a second render of the same file gives the same output even after the file changed |
| UriComponent.Utf8RoundTrip | lib/fmt.js:9 | the UTF-8 bytes of every character decode back to that character |
| UriComponent.Encode | lib/fmt.js:9 | the output is a sequence of unreserved characters and escapes `%` followed by two upper-case hex digits, and never holds a `/` |
| UriComponent.EncodeUnreservedIdentity | lib/fmt.js:9 | a string of unreserved characters is left as is |
| UriComponent.DecodeEncode | lib/fmt.js:9 | percent-decoding the encoded string gives the original string back |
| UriComponent.EncodeInjective | lib/fmt.js:9 | two different file names never encode to the same text |
| Fmt.Digits | lib/fmt.js:21 | the kept characters are all ASCII digits and no more than the input |
| Fmt.DigitsAppend | lib/fmt.js:21 | digit extraction distributes over concatenation |
| Fmt.NonDigitIgnored | lib/fmt.js:21 | inserting a non-digit anywhere does not change the extracted digits |
| Fmt.Layout | lib/fmt.js:23 | the template literal that lays out ten digits; LayoutShape states its shape and digits |
| Fmt.LayoutShape | lib/fmt.js:23 | laying out ten digits gives `(ddd) ddd-dddd` whose digits are those ten, in order |
| Fmt.FormatPhone | lib/fmt.js:20-24 | a result exists exactly when the input (absent input read as `""`) holds ten digits; it then has the `(ddd) ddd-dddd` shape and carries the same digits in order |
| Fmt.FormatPhoneIdempotent | lib/fmt.js:21-23 | formatting a formatted number gives it back unchanged |
| Fmt.FormattedIsFixedPoint | lib/fmt.js:20-24 | a string is returned unchanged exactly when it already has the `(ddd) ddd-dddd` shape |
| Fmt.TrimTrailingSlash | lib/fmt.js:6-8 | one trailing `/` is removed and nothing else changes |
| Fmt.EffectiveBase | lib/fmt.js:5 | `if (!base) base = PB_HOST`; FalsyBaseUsesHost states how a falsy base falls back |
| Fmt.PbFileUrl | lib/fmt.js:4-10 | a URL is built exactly when the base, or failing a falsy base the host setting, is defined |
| Fmt.FileNameIsLastSegment | lib/fmt.js:6-9 | the part after the last `/` of the URL is the encoded file name, and it decodes to the file name |
| Fmt.UrlLayout | lib/fmt.js:6-9 | the URL is the base without its trailing `/`, then `/api/files/`, the collection id, `/`, the record id, `/` and the encoded file name; a base ending in `//` keeps one `/` |
| Fmt.FalsyBaseUsesHost | lib/fmt.js:5 | an undefined and an empty base behave alike; they use the host setting, and with no host setting the call fails |

## Left out

- `server.js` and the rest of the service (HTTP routes, SMTP, the self-call, PocketBase access, start-up) are not part of this model.
- `fmtD` is not modelled: it depends on `Date` parsing and the locale.
- `path.resolve` is a resolver function passed to the cache; directory layout and normalisation of paths are not modelled.
- `fs.readFileSync` is a map from absolute path to text; byte decoding and every read error other than a missing file (permissions, directories) collapse into `FileNotFound`, which stands for the exception.
- The `data = {}` default is not modelled: callers pass a value.
- TemplateData.Lookup: property access on primitives (`"abc".length`) and inherited prototype properties (`toString`) give `undefined` in the model.
- TemplateData.Display: `Num(n)` stands for a safe integer (below 2^53 in magnitude), printed in plain decimal; JavaScript prints integers from 1e21 up in exponent form and rounds those beyond 2^53, and the model does not. Floating-point values are not modelled. Arrays, functions and other object kinds in the data are not modelled; any object displays as `[object Object]`.
- UriComponent.Encode: lone surrogates, for which `encodeURIComponent` throws `URIError`, cannot occur in Dafny strings and are not modelled.
- Fmt.PbFileUrl: arguments are strings; the implicit conversion of non-string ids and file names is not modelled. A missing base and missing host setting is reported as an error value rather than the `TypeError` the call throws.
- Fmt.FormatPhone: a truthy non-string phone value, for which the call throws, is not modelled.
- `process.env.PB_HOST` is passed as the host parameter.
- The process-wide lifetime of `CACHE` and concurrent callers are not modelled; each `Cache` object stands for one process.
