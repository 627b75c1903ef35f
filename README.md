# Iris `Data` widget: a verified model

This project models the logic of the `Data` widget of the Iris web front
end (`root/js/widgets/data.js`): the JSON syntax highlighter
`syntaxHighlight`, the service selector that `render` builds from the
`/service/list` reply, and the query state (`uriPrefix` and the path) that
`render`, the load button and `getJSON` share.

- `escaping.dfy` (module `Escaping`): the three chained `replace` calls that
  HTML-escape `&`, `<` and `>`, with a per-character reference escape and an
  unescape partner.
- `highlight.dfy` (module `Highlighter`): the global regular-expression
  replace of line 67. It is written as an explicit left-to-right scanner
  (`ItemEnd`, `BodyEnd`, `SpaceEnd`, `QuotedMatch`, `WordMatch`,
  `NumberMatch`, `MatchAt`, `Tokens`). It also holds the replacement
  callback (`Classify`), the span output (`Render`, `SyntaxHighlight`) and a
  tag stripper for reading the output back. JavaScript's `\s`, `\b`, `\d`
  and `[a-zA-Z0-9]` are written out exactly. The greedy scanner finds the
  match the regex engine finds. Each of `-?`, `\s*` and `[+\-]?` is followed
  by a required element that cannot match a character the quantifier took
  (`\d+` after `-` or a sign, `:` after whitespace). So giving a character
  back never leads to a different match. The greedy `\d+` and `\d*` are
  followed only by optional groups, which succeed empty. So the engine's
  first success is the greedy path. The repeated body before the closing
  `"` is the one place where giving back could matter. A string body that
  ends at a `"` is unique (`HighlightProofs.QuoteCloseUnique`), so
  backtracking cannot close a string earlier. The three alternatives start
  with disjoint characters, so their order never decides between two
  matches.
- `highlight_proofs.dfy` (module `HighlightProofs`): reference grammars for
  the three alternatives, stated as `IsBody`, `IsNumber`, `IsExponent`,
  `AfterDot` and `AfterDigit`. It proves the scanner sound, complete and
  longest-match against them, and proves the classification and the
  markup round trip.
- `highlight_cases.dfy` (module `HighlightCases`): small concrete inputs
  worked through the scanner.
- `service_options.dfy` (module `ServiceOptions`): the `for` loop over the
  services as a method with a `while` loop, a growing sequence of options and
  a `seen` set. It is proved equal to a reference definition of the dedup,
  whose own properties are proved as lemmas.
- `data_widget.dfy` (module `DataWidget`): a class `Widget` whose field
  `uriPrefix` is the module-level variable that `render` reassigns. It has
  methods for `render` and for a click on the load button, plus the value a
  single-choice `select` reports.
- `wrappers.dfy` (module `Wrappers`): `Option`.

Two behaviours of the code are worth stating:

- **Key colon.** A key is a quoted string, then optional whitespace, then
  `:`. This is the pattern's `(\s*:)?` at line 67. The colon need not be
  adjacent to the quote (`HighlightCases.KeySpacedColon`).
- **`args` required.** `render` requires an `args` object. Without one,
  `args.hasOwnProperty` at line 10 throws before `uriPrefix` changes
  (`Outcome.TypeError`).

The two server replies are parameters of `Widget.Render`: the service list,
and the pretty-printed JSON text of the data reply. So is the page's initial
data URI, a parameter of the constructor.

## Model

| member | source | states |
|---|---|---|
| Escaping.ReplaceAll | root/js/widgets/data.js:63-65 | one global replace pass removes every occurrence of the character when the replacement does not contain it, and leaves text without the character unchanged |
| Escaping.Escape | root/js/widgets/data.js:62-65 | the three chained passes, `&` first; characterised by `EscapeIsPerChar`, `EscapeNoAngles`, `EscapeAmpersands` and `UnescapeEscape` |
| Escaping.EscapeIsPerChar | root/js/widgets/data.js:62-65 | the three chained passes equal a one-pass per-character escape, so `<` becomes exactly `&lt;` and an entity is never re-escaped (a `<` never becomes `&amp;lt;`) |
| Escaping.EscapeNoAngles | root/js/widgets/data.js:62-65 | no raw `<` or `>` remains after escaping |
| Escaping.EscapeAmpersands | root/js/widgets/data.js:62-65 | every `&` in escaped text starts `&amp;`, `&lt;` or `&gt;` |
| Escaping.UnescapeEscape | root/js/widgets/data.js:62-65 | decoding the three entities recovers the original text |
| Escaping.EscapeInjective | root/js/widgets/data.js:62-65 | two texts with the same escape are equal |
| Highlighter.MatchAt | root/js/widgets/data.js:67 | a match at a position is non-empty and inside the text, so the global scan always moves forward |
| Highlighter.QuotedMatch | root/js/widgets/data.js:67 | the first alternative `"(…)*"(\s*:)?`, scanned greedily; characterised by `QuotedMatchSound`, `QuotedMatchComplete`, `QuoteCloseUnique` and `KeyOrString` |
| Highlighter.WordMatch | root/js/widgets/data.js:67 | the second alternative `\b(true\|false\|null)\b`; characterised by `WordMatchSound` and `WordMatchComplete` |
| Highlighter.NumberMatch | root/js/widgets/data.js:67 | the third alternative `-?\d+(?:\.\d*)?(?:[eE][+\-]?\d+)?`, scanned greedily; characterised by `NumberMatchSound` and `NumberMatchLongest` |
| Highlighter.Classify | root/js/widgets/data.js:68-79 | the replacement callback; characterised by `ClassifyAgrees`, `KeyOrString`, `ClassifyWord` and `ClassifyNumber` |
| Highlighter.Tokens | root/js/widgets/data.js:66-81 | the global replace as a scan, one match or one copied character at a time; characterised by `TokensCover`, `TokensClassified`, `StringToken`, `WordToken`, `NumberToken`, `UnterminatedQuote` and `PassThrough` |
| Highlighter.SyntaxHighlight | root/js/widgets/data.js:61-82 | escape, then scan and wrap; characterised by `HighlightStripsToEscaped` and `HighlightRoundTrip` |
| Highlighter.Render | root/js/widgets/data.js:80 | each match wrapped as `SpanOpen(cls) + match + SpanClose`, other characters copied; characterised by `StripRender`, `StripSpan` and `HighlightStripsToEscaped` |
| HighlightProofs.BodyEndSound | root/js/widgets/data.js:67 | the scanned inside of a quoted string is in the language of `(\\u[a-zA-Z0-9]{4}\|\\[^u]\|[^\\"])*` |
| HighlightProofs.QuoteCloseUnique | root/js/widgets/data.js:67 | the only quote-terminated body from a position is the one the scanner finds, so backtracking cannot end a string earlier |
| HighlightProofs.BodyQuotesEscaped | root/js/widgets/data.js:67 | every `"` inside a string body follows a backslash whose preceding text is itself a body, so that backslash opens an escape item (it is not the second half of `\\`) |
| HighlightProofs.QuotedMatchSound | root/js/widgets/data.js:67 | a quoted match is `"`, a body, `"`; it takes `\s*:` exactly when whitespace and a colon follow, with the colon last, and otherwise ends at the closing quote |
| HighlightProofs.QuotedMatchComplete | root/js/widgets/data.js:67 | every `"` followed by a quote-terminated body is matched, closed by that quote |
| HighlightProofs.MatchAtQuote | root/js/widgets/data.js:67 | at a `"` only the quoted alternative can match |
| HighlightProofs.WordMatchSound | root/js/widgets/data.js:67 | a word match is `true`, `false` or `null` with no word character just before or after it |
| HighlightProofs.WordMatchComplete | root/js/widgets/data.js:67 | a literal standing alone is matched in full |
| HighlightProofs.NumberMatchSound | root/js/widgets/data.js:67 | a number match is in the language of `-?\d+(?:\.\d*)?(?:[eE][+\-]?\d+)?` |
| HighlightProofs.NumberMatchLongest | root/js/widgets/data.js:67 | a numeric literal at a position is always matched, and the match covers the whole literal |
| HighlightProofs.ClassifyWord | root/js/widgets/data.js:75-79 | `true` and `false` are classified boolean, `null` null |
| HighlightProofs.ClassifyNumber | root/js/widgets/data.js:68-79 | a numeric literal contains none of the words and is classified number |
| HighlightProofs.ClassifyAgrees | root/js/widgets/data.js:67-79 | every match is classified as the alternative it came from: quoted with colon is key, other quoted string, literal boolean or null, number number |
| HighlightProofs.KeyOrString | root/js/widgets/data.js:67-74 | a match starting with `"` is a key exactly when it took the colon group, the colon then being the span's last character; otherwise a string ending at its quote |
| HighlightProofs.StringToken | root/js/widgets/data.js:66-81 | a well-formed quoted string becomes one key or string span closed by its first unescaped quote |
| HighlightProofs.WordToken | root/js/widgets/data.js:66-81 | a standalone `true`/`false` becomes one boolean span, `null` one null span |
| HighlightProofs.NumberToken | root/js/widgets/data.js:66-81 | a numeric literal becomes one number span covering at least the literal, its text a numeric literal |
| HighlightProofs.UnterminatedQuote | root/js/widgets/data.js:66-67 | a `"` that opens no well-formed string is copied through and the scan resumes at the next character |
| HighlightProofs.PassThrough | root/js/widgets/data.js:66-67 | braces, brackets, commas, colons, whitespace and any other character that cannot start a token are copied through unwrapped |
| HighlightProofs.TokensCover | root/js/widgets/data.js:66-81 | the pieces of the scan cover the scanned text exactly and in order |
| HighlightProofs.TokensClassified | root/js/widgets/data.js:67-80 | every span is non-empty and carries the class the callback gives its text |
| HighlightProofs.StripRender | root/js/widgets/data.js:80 | deleting the span tags from the rendered pieces gives their text, when that text has no `<` |
| HighlightProofs.HighlightStripsToEscaped | root/js/widgets/data.js:61-82 | deleting every tag from the highlighter's output gives exactly the escaped input |
| HighlightProofs.HighlightRoundTrip | root/js/widgets/data.js:61-82 | deleting the tags and unescaping gives back the original JSON text |
| HighlightCases.KeyAdjacentColon | root/js/widgets/data.js:67-72 | `"k":` is one key match including the colon |
| HighlightCases.KeySpacedColon | root/js/widgets/data.js:67-72 | `"k" :` is one key match: whitespace before the colon is allowed |
| HighlightCases.StringWithoutColon | root/js/widgets/data.js:67-74 | `"k",` matches `"k"` only, classified string |
| HighlightCases.EscapedQuoteInside | root/js/widgets/data.js:67 | in `"a\"b"` the escaped quote does not end the string |
| HighlightCases.WholeNumber | root/js/widgets/data.js:67-79 | `-3.5e2` is one number match covering all six characters |
| ServiceOptions.OptionFor | root/js/widgets/data.js:26-31 | the option of one service: its name as text, its uri as value, flagged when the uri equals the prefix; characterised by `BuildOptions` and `OptionsFacts` |
| ServiceOptions.FirstOccurrences | root/js/widgets/data.js:20-34 | the dedup that skips a service only when an earlier entry has its name; characterised by `FirstOccurrencesNames`, `FirstOccurrencesDistinct`, `FirstOccurrencesIndices`, `FirstOccurrencesKeepFirst` and `FirstOccurrencesHead` |
| ServiceOptions.Options | root/js/widgets/data.js:20-38 | the whole selector, one option per kept service then `custom`; characterised by `OptionsFacts` and equal to what `BuildOptions` builds |
| ServiceOptions.BuildOptions | root/js/widgets/data.js:19-38 | the loop builds exactly the reference options. Its result has distinct names plus one entries, the trailing `custom` with value `""` not flagged, distinct texts, `selected` exactly when the value equals the prefix, and an option for every first entry of a name |
| ServiceOptions.OptionsFacts | root/js/widgets/data.js:20-38 | the same facts about the reference options: size, trailing `custom`, selection, distinct texts, every first entry present |
| ServiceOptions.FirstOccurrencesNames | root/js/widgets/data.js:20-34 | the deduplicated list has exactly the names of the whole list |
| ServiceOptions.FirstOccurrencesDistinct | root/js/widgets/data.js:20-34 | the deduplicated list has no name twice |
| ServiceOptions.DistinctCount | root/js/widgets/data.js:20-34 | a list without repeated names has as many entries as names, so the option count is the number of distinct names |
| ServiceOptions.FirstOccurrencesIndices | root/js/widgets/data.js:20-34 | each kept entry is the first entry with its name, and the kept entries appear at strictly increasing positions of the input |
| ServiceOptions.FirstOccurrencesKeepFirst | root/js/widgets/data.js:20-34 | the first entry of every name is kept |
| ServiceOptions.FirstOccurrencesHead | root/js/widgets/data.js:20-34 | the first service of a non-empty list is always kept and comes first in the selector |
| ServiceOptions.FirstOccurrencesAsWritten | root/js/widgets/data.js:20-25 | the dedup with the lookup `seen[srv.name]` on a plain object; characterised by `InheritedNameHidden` and `AsWrittenAgrees` |
| ServiceOptions.InheritedNameHidden | root/js/widgets/data.js:20-25 | as written, the only service `constructor` gets no option, while the intended dedup keeps it |
| ServiceOptions.AsWrittenAgrees | root/js/widgets/data.js:20-25 | with no name inherited from `Object.prototype`, the written lookup and the intended dedup agree |
| DataWidget.Resolve | root/js/widgets/data.js:10-15 | `path` or the default path, `API` or `""`; characterised by `ResolveDefaults`, `LoadArgsResolve` and `Widget.Render` |
| DataWidget.ViewOf | root/js/widgets/data.js:19-57 | the drawn page: the selector, the sanitized input, the data URL and the highlighted reply; `Widget.Render` is stated in it, and `PrefixOffered`, `ReloadKeepsQuery`, `NewlineDropped` and `CustomNotKept` are about it |
| DataWidget.LoadArgs | root/js/widgets/data.js:48-51 | the button's `{API: sel.value, path: input.value}`; characterised by `LoadArgsResolve` |
| DataWidget.FetchUrl | root/js/widgets/data.js:84-86 | the data URL is the prefix immediately followed by the path |
| DataWidget.LastSelected | root/js/widgets/data.js:29-32 | finds the last option whose `selected` was set, or reports that none was |
| DataWidget.SelectValue | root/js/widgets/data.js:49 | `sel.value` of the single-choice selector; characterised by `PrefixOffered` and `PrefixNotOffered` |
| DataWidget.StripNewlines | root/js/widgets/data.js:42 | the value sanitization of a text input on `input.value = path`; the result is never longer than the path |
| DataWidget.StripNewlinesClean | root/js/widgets/data.js:42 | the input's value never holds a line feed or carriage return |
| DataWidget.StripNewlinesKeeps | root/js/widgets/data.js:42 | a path without line breaks is the input's value unchanged |
| DataWidget.StripNewlinesAppend | root/js/widgets/data.js:42 | sanitization works piece by piece, so every character other than LF and CR survives in order |
| DataWidget.Widget.constructor | root/js/widgets/data.js:2 | the prefix starts as the page's data URI |
| DataWidget.Widget.Render | root/js/widgets/data.js:7-58 | without `args`, a TypeError with `uriPrefix` unchanged (the container is already cleared; the DOM is not modelled); otherwise `uriPrefix` becomes `API` or `""`, the path is `path` or the default, and the view holds the options for the new prefix, the path as the input sanitizes it, the URL prefix + path and the highlighted reply |
| DataWidget.Widget.Load | root/js/widgets/data.js:47-52 | the load button sets the prefix to the selector's value and renders the input's path |
| DataWidget.LoadArgsResolve | root/js/widgets/data.js:47-52 | the button's arguments have both properties, and resolve to exactly the selector's and the input's values |
| DataWidget.ResolveDefaults | root/js/widgets/data.js:10-15 | with neither property, the prefix is `""` and the URL is `/species/at/chromosomes` |
| DataWidget.PrefixOffered | root/js/widgets/data.js:29-32 | when a kept service has the prefix as its uri, the selector's value is the prefix |
| DataWidget.PrefixNotOffered | root/js/widgets/data.js:29-38 | when no kept service has the prefix as its uri, no option is flagged and the selector shows its first option |
| DataWidget.ReloadKeepsQuery | root/js/widgets/data.js:42-52 | pressing load on an untouched view of an offered prefix resolves to the same prefix and the sanitized path, which is the same path when it holds no line break |
| DataWidget.NewlineDropped | root/js/widgets/data.js:42-50 | with `x` the uri of a kept service, a path `/a` LF `b` drawn under prefix `x` is read back from the input as `/ab`, so one press requests `x/ab` |
| DataWidget.CustomNotKept | root/js/widgets/data.js:35-50 | after loading with `custom` (prefix `""`) over a non-empty list in which no kept service has the uri `""`, the next view flags no option and shows the first service, so a second press resolves to that service's uri and the path as the input sanitized it (the same path when it has no line break) |

## Left out

- DOM construction is not modelled: `getElementById`, `innerHTML = ''`,
  `createElement`, `appendChild` and the button's attributes. The page is a
  `View` record holding the options, the input's value, the data URL and
  the `pre` element's HTML.
- The AJAX requests (lines 17 and 85) are not modelled. Both replies are
  parameters. The request for `/service/list` itself is not modelled.
- Asynchrony is not modelled. This includes a reply of an earlier `render`
  arriving after a later one has changed `uriPrefix`. Each render is taken
  as one step, with its replies already in hand.
- `JSON.stringify(obj, undefined, 4)` is a library call. Its output is the
  arbitrary `pretty` text.
- Values in the service list that are not strings are not modelled, nor is
  `for ... in` over properties other than array indices. A service is a pair
  of strings.
- `DataWidget.LastSelected` and `DataWidget.SelectValue` model the HTML
  rule for a single-choice `select`: the last option set selected wins, an
  unflagged select shows its first option, and an empty select's value is
  `""`. They do not model user interaction with the selector beyond its
  value.
- A JavaScript string is a sequence of UTF-16 code units, while a Dafny
  `char` is a Unicode scalar value. Lone surrogates cannot be represented.
  JavaScript reads a character outside the Basic Multilingual Plane as two
  code units. Inside a string they are taken by `\\[^u]` or `[^\\"]`, then
  by `[^\\"]`; the model reads the character as one scalar, taken by one of
  the same items. Neither form is a `\w`, `\s` or `\d` character, so match
  ends and `\b` come out the same.
- ServiceOptions.BuildOptions: keeps `seen` as a set of names, not as a
  plain object. It therefore does not reproduce the skipping of names
  inherited from `Object.prototype` at lines 20-25. That behaviour is
  modelled separately by `ServiceOptions.FirstOccurrencesAsWritten` (see
  Findings).
- `Escaping.Unescape` and `Highlighter.StripTags` are reading-back partners
  for the proofs. The source has no such functions.
- `root/js/widgets/go_histogram.js` is not part of this model. It is a
  plugin option object, logging, and a request whose callback does nothing.
- `nodejs/routes/index.js` is not part of this model. It is template
  selection only.
- HighlightProofs.NumberToken: states that the number span covers at least
  the given literal and is itself a numeric literal. That it is the longest
  such literal is `NumberMatchLongest`.

## Findings

| source | as written | input that shows it | evidently intended | confidence | as-written member | corrected member |
|---|---|---|---|---|---|---|
| root/js/widgets/data.js:20-23 | `seen = {}` is a plain object, so `seen[srv.name]` also finds the properties every object inherits from `Object.prototype`. A service whose name is one of them is skipped as if already seen. | a service list holding only `{name: "constructor", uri: "u"}`: the selector gets no option for it, only `custom` | skip a service only when an earlier entry of the list has its name | high; not executed | ServiceOptions.FirstOccurrencesAsWritten, ServiceOptions.InheritedNameHidden | ServiceOptions.FirstOccurrences, ServiceOptions.FirstOccurrencesKeepFirst |

`ServiceOptions.BuildOptions` keeps `seen` as a set of names, which is the
corrected lookup. The rest of the model uses it.
