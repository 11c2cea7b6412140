# Link to Verse: the link-building pipeline, in Dafny

The Obsidian plugin "Link to Verse" turns a selected Bible reference such as
`John 3:16-18, 4:1 NIV` into markdown links, one per verse range, joined with
`", "`. The repository holds two generations of that command, and this project
models both.

- **Current formatter** (`src/main.ts`). A parsed reference comes from an
  external parser: a book name, a list of ranges `(chapter, fromVerse,
  toVerse)` and a version. `formatVerseRange` turns each range into
  `[label](uri)`, and the command joins the links. A link template that
  contains the words `book`, `chapter` and `verse` selects the Olive Tree
  dialect, with separate `{{book}}`, `{{chapter}}` and `{{verse}}`
  placeholders. Any other template is the default dialect, with one
  `{{verse}}` placeholder. Both dialects take `{{version}}`. Whitespace runs in
  the book name become `+` or `%20`, depending on `encodeSpacesToPlus`.
- **Legacy command** (`main.ts`). It parses the selection itself with the
  anchored pattern `verseParse`, then scans the range group with the global
  pattern `verseRange`. Each raw range text is formatted with a template that
  has one `{{verse}}` placeholder.

Modules:

| file | module | models |
|---|---|---|
| `optional.dfy` | `Optional` | absent values |
| `chars.dfy` | `Chars` | the regular-expression classes `\d`, `\w` (ASCII) and `\s` (the ECMAScript white-space and line-terminator set), and maximal runs |
| `jsstring.dfy` | `JsString` | `indexOf`, `includes` (Obsidian's `contains`), `replace` with a string pattern, `replace(/\s+/g, …)` and `Array.prototype.join` |
| `decimal.dfy` | `Decimal` | the decimal text of a number in a template literal |
| `links.dfy` | `LinkText` | the markdown link `[text](uri)` and the label prefix and suffix shared by both generations |
| `settings.dfy` | `Settings` | the settings record and its defaults |
| `formatter.dfy` | `Formatter` | the current `formatVerseRange` and the command's map/join |
| `legacy_parser.dfy` | `LegacyParser` | `verseParse`, `verseRange` and `verseToLink` |
| `legacy_formatter.dfy` | `LegacyFormatter` | the legacy `formatVerseRange` and the command's map/join |
| `legacy_examples.dfy` | `LegacyExamples` | worked inputs, proved for the exact strings |

Some behaviours follow from the code as written, and the model keeps each of them.

- **Current label spacing:**
  - The first label has two spaces between the book and the range, as in `John  3:16-18`.
  - Every later label starts with one space, as in ` 4:1`.

  The label is `` `${bookText} ${rangeText}…` `` with `bookText` already ending in a space.
- **Olive Tree dialect:** it links to and shows only `fromVerse`. The end of a multi-verse range is dropped.
- **Legacy `replace` calls:** `replace(' ', '+')` and `replace(':', '.')` change only the FIRST space and the first colon.
  - `3:16-4:2` becomes `3.16-4:2`.
  - Given a book name with two spaces, `formatVerseRange` keeps the second one in the URI. `verseToLink` never yields such a book, because its book has at most one space.
- **Replacement strings:** every `replace` with a string pattern treats `$$`, `$&`, `` $` `` and `$'` in the replacement specially. `JsString.Substitute` models that. The lemmas that compute a URI exactly therefore ask for `$`-free book names and versions.
- **Legacy parser backtracking:** it is reproduced exactly for every input.
  - `\w+` gives back digits glued to the book, so `John3:16` is book `John` with range `3:16`.
  - A leading numeral joins the book with one space, so `1 John` is one book.
  - A selection with no chapter digits after the book gives no links and an empty replacement.

## Model

| member | source | states |
|---|---|---|
| `Formatter.KindOf` | src/main.ts:22-30 | the Olive Tree dialect is chosen exactly when the template contains all three of `book`, `chapter` and `verse` |
| `Formatter.BookUri` | src/main.ts:19-20 | the book URI holds no white space, equals the book name when that has none, and every character comes from the name or the space encoding |
| `Formatter.FirstVersion` | src/main.ts:33 | the version of a reference is its one name, or the first name of its list |
| `Formatter.Label` | src/main.ts:66 | the first label is the book, two spaces and the range text; every other label starts with one space and the range text |
| `Formatter.VersionOnlyOnLast` | src/main.ts:32-37 | ` <version>` ends the label exactly on the last range and only when the first version differs from the default version |
| `Formatter.SpaceSettingKeepsLabel` | src/main.ts:18-20 | the space-encoding setting changes URIs only, never a label |
| `Formatter.DefaultHyphenIffRange` | src/main.ts:44-51 | in the default dialect the range text has a `-` exactly when fromVerse differs from toVerse |
| `Formatter.DefaultRangeTextRoundTrip` | src/main.ts:44-51 | the default dialect's range text `chapter:from[-to]` decodes back to the same range |
| `Formatter.DefaultLabelInjective` | src/main.ts:44-66 | in the default dialect two ranges at the same position of a reference get the same label only when they are the same range |
| `Formatter.VerseSpanDecodes` | src/main.ts:44-45 | the verse part `from[-to]` splits back into the two verse numbers |
| `Formatter.OliveTreeRangeTextDropsEnd` | src/main.ts:54-62 | the Olive Tree range text decodes to the range with toVerse replaced by fromVerse |
| `Formatter.OliveTreeIgnoresToVerse` | src/main.ts:53-63 | under an Olive Tree template two ranges that differ only in toVerse give the same link |
| `Formatter.RangeUri` | src/main.ts:47-60 | a template without its dialect's placeholders is the URI as it stands: no `{{verse}}` or `{{version}}`, and in the Olive Tree dialect no `{{book}}` or `{{chapter}}` either, so `{{ verse }}` or `{id}` passes through |
| `Formatter.DefaultTemplateUri` | src/main.ts:47-49 | for a default template `a{{verse}}b{{version}}c`, the URI is `a`, the book URI, the space encoding, `chapter.from[-to]`, `b`, the first version and `c` |
| `Formatter.OliveTreeTemplateUri` | src/main.ts:56-60 | for an Olive Tree template with the four placeholders in order, the URI is the book URI, chapter, fromVerse and first version put in their places |
| `Formatter.OliveTreeMarkers` | src/main.ts:24-29 | a template that has the four placeholders always selects the Olive Tree dialect |
| `Formatter.FormatVerseRange` | src/main.ts:66 | the result is exactly `[`, the label, `](`, the URI and `)` |
| `Formatter.RangeLinks` | src/main.ts:83-91 | one link per range, in order, the link at position ix being the formatted range ix |
| `Formatter.ReplacementText` | src/main.ts:83-92 | the text that replaces the selection is empty exactly when the reference has no ranges |
| `Formatter.ReplacementTextShape` | src/main.ts:83-92 | no ranges give the empty text; one range gives exactly its link |
| `Formatter.ReplacementTextLastLink` | src/main.ts:92 | with two or more ranges the text is the join of all but the last link, `", "`, and the last link |
| `Formatter.DefaultSettingsEmptyUris` | src/main.ts:6-12 | under the default settings (empty template) every URI is empty |
| `LinkText.Render` | src/main.ts:66 | `[text](uri)`: `[`, the text, `](`, the URI and `)`, and nothing else |
| `LinkText.RenderInjective` | main.ts:50 | two links with labels of equal length render to the same text only when they are equal |
| `LinkText.BookPrefix` | src/main.ts:18 | the book and a space on the first range, nothing on the others |
| `LinkText.VersionSuffix` | main.ts:41-44 | ` <version>` on the last range when the version is not the default, otherwise nothing |
| `Decimal.NatToString` | src/main.ts:44-45 | a number's text is digits without a leading zero and reads back as the same number |
| `Decimal.NatToStringInjective` | src/main.ts:44-51 | different numbers have different texts |
| `JsString.IndexOf` | src/main.ts:25-27 | the position found is the first occurrence, and none is found exactly when the pattern does not occur |
| `JsString.Includes` | src/main.ts:25-27 | `contains` holds exactly when the pattern occurs |
| `JsString.Substitute` | src/main.ts:48 | a replacement with no `$` is inserted as it is |
| `JsString.ReplaceFirst` | src/main.ts:48-49 | replacing a string pattern swaps its first occurrence only; the text before and after is kept |
| `JsString.ReplaceBetween` | src/main.ts:48-49 | when the text before the pattern holds no first character of it, the first occurrence is the one replaced and the replacement text is expanded against that match |
| `JsString.SpecialReplacements` | src/main.ts:48-49 | a replacement of `$&` puts the match back, `$$` inserts one dollar sign, `` $` `` repeats the text before the match and `$'` the text after it |
| `JsString.SubstituteSpecials` | src/main.ts:48 | the special sequences `$&`, `$$`, `` $` `` and `$'` expand to the match, a dollar sign, the preceding text and the following text |
| `JsString.Replace` | src/main.ts:48-49 | replacing a pattern that does not occur leaves the text unchanged |
| `JsString.ReplaceAfterPrefix` | main.ts:38-39 | when the prefix holds no first character of the pattern, the occurrence right after it is the one replaced |
| `JsString.ReplaceTwo` | main.ts:46-48 | two chained replacements on a template with brace-free literal parts put each value in its placeholder |
| `JsString.ReplaceFour` | src/main.ts:56-60 | four chained replacements on a template with brace-free literal parts put each value in its placeholder |
| `JsString.ReplaceSpaceRuns` | src/main.ts:20 | the result has no white space when the replacement has none, equals the input when that has none, and takes every character from the input or the replacement |
| `JsString.ReplaceSpaceRunsSplit` | src/main.ts:20 | a whole white-space run between a word and the rest becomes one copy of the replacement |
| `JsString.Join` | src/main.ts:92 | joining nothing gives the empty text, and the first element starts the result |
| `JsString.JoinSnoc` | main.ts:72 | the join of a list is the join of all but the last element, the separator, and the last element |
| `LegacyParser.PointEnd` | main.ts:14 | from a digit, the longest `\d+([:.]\d+)?` prefix, not followed by a digit |
| `LegacyParser.RangeEnd` | main.ts:14 | from a digit, the longest range token `\d+([:.]\d+)?(-\d+([:.]\d+)?)?`, not followed by a digit |
| `LegacyParser.RangeGreedy` | main.ts:14 | a range token that ends at a separator is exactly what the scan takes |
| `LegacyParser.ScanRanges` | main.ts:27 | the global match returns only range tokens, and at least one when the group starts with a digit |
| `LegacyParser.ScanTiles` | main.ts:27 | the scanned group is exactly its tokens interleaved with digit-free gaps |
| `LegacyParser.ScanUnits` | main.ts:27 | a group written as range tokens with comma separators scans back to exactly those tokens |
| `LegacyParser.TryWord` | main.ts:13 | `(\w+)\s?` before a digit: the cut found is a valid one and the longest, and none is found exactly when no cut exists |
| `LegacyParser.MatchHead` | main.ts:13 | the head match is a valid split, none is found exactly when the pattern cannot match, the word is the longest, and the numeral branch is taken whenever it can be |
| `LegacyParser.GroupEnd` | main.ts:13 | the range group `((\d+…)(,\s*)?)+` stops at the end of the text or before a character that is not a digit |
| `LegacyParser.GroupEndAt` | main.ts:13 | a group of range tokens joined by `,\s*` and followed by text that cannot extend it is matched to exactly its end |
| `LegacyParser.TrailingWord` | main.ts:13 | the version capture `\s*(\w+)?` is a `\w` run when it is present |
| `LegacyParser.TrailingWordReads` | main.ts:25 | after the group, white space and then a word give that word as the version; no word gives none, so the default version is used |
| `LegacyParser.VerseToLinkReads` | main.ts:16-34 | on a selection of the stated shape, the reference holds the selection's book (its word, after the numeral and one space when there is a numeral), its range tokens in order, and its trailing word or the default version |
| `LegacyParser.VerseToLink` | main.ts:16-34 | no match gives an empty book, no ranges and the default version; a match gives a book of one word or numeral-space-word, at least one range token, and the default version or a trailing word |
| `LegacyFormatter.BookUriShape` | main.ts:38 | the book URI is the book plus `+`, with only its first space turned into `+` |
| `LegacyFormatter.ParsedBookUriHasNoSpace` | main.ts:38 | the URI of any parsed book has no space, because a parsed book holds at most one |
| `LegacyFormatter.RangeUriShape` | main.ts:39 | the range URI is the range with only its first colon turned into a dot |
| `LegacyFormatter.RangeUriAfterChapter` | main.ts:39 | after a colon-free chapter, the colon that follows it becomes a dot and nothing else changes |
| `LegacyFormatter.CrossChapterRangeUri` | main.ts:39 | `3:16-4:2` becomes `3.16-4:2` in the URI |
| `LegacyFormatter.Label` | main.ts:37-50 | the label is the book and a space on the first range, the raw range, and the version on the last range when it is not the default |
| `LegacyFormatter.TemplateUri` | main.ts:46-48 | for `a{{verse}}b{{version}}c` the URI is `a`, the book URI, the range URI, `b`, the version and `c` |
| `LegacyFormatter.FillTemplate` | main.ts:46-48 | a template with neither `{{verse}}` nor `{{version}}` is the URI as it stands |
| `LegacyFormatter.FormatVerseRange` | main.ts:50 | the result is exactly `[`, the label, `](`, the URI and `)` |
| `LegacyFormatter.RangeLinks` | main.ts:67-72 | one link per raw range, in order |
| `LegacyFormatter.LinkToVerse` | main.ts:66-74 | the replacement text is empty exactly when the selection does not match `verseParse` |
| `LegacyFormatter.LinkCount` | main.ts:66-72 | a matching selection gives at least one link, and the replacement is their join |
| `LegacyExamples.SampleParse` | main.ts:16-34 | `John 3:16-18, 4:1 NIV` parses to book `John`, ranges `3:16-18` and `4:1`, version `NIV` |
| `LegacyExamples.SampleLinks` | main.ts:36-72 | the full replacement text for the sample under a Bible Gateway search template |
| `LegacyExamples.GluedChapter` | main.ts:13 | `John3:16` parses to book `John` and range `3:16` |
| `LegacyExamples.NumberedBookSample` | main.ts:23 | `1 John 3:16` parses to book `1 John` |
| `LegacyExamples.ColonAfterRange` | main.ts:13 | in `John 3:16:5` the range group stops before the second `:`, giving book `John`, range `3:16` and the default version |
| `LegacyExamples.NotAReference` | main.ts:19-21 | `hello world`, which has no digits, parses to an empty book, no ranges and the default version, and gives an empty replacement |

## Left out

- `parseBibleReference`: the external parser of the current command is not part of this model. It handles book-name recognition, the language setting (`en`/`sp`) and `validateBookName`. The current formatter takes its output (`ParsedReference`) as input.
- Obsidian plumbing: the editor selection, `replaceSelection`, the settings tab, and loading and saving the settings. These are I/O, so `Settings.DefaultSettings` and `LegacyFormatter.DefaultLegacySettings` only record the default values.
- `encodeURIComponent`: it is called only on a single space, and the model uses its value `%20` as a constant.
- An empty version array: `parsedVerse.version[0]` would be `undefined`. The model assumes that the external parser never returns an empty list, so its version list always has at least one element.
- Numbers: JavaScript numbers are modelled as unbounded naturals. The model assumes that the external parser gives non-negative integer chapter and verse numbers small enough to print exactly, so no rounding or sign case arises.
- Characters: strings are sequences of Unicode scalar values, not UTF-16 code units. No pattern or replacement in the core depends on the difference.
- JsString.Substitute: its own contract states only the `$`-free case; the special sequences are stated by `JsString.SubstituteSpecials` and `JsString.SpecialReplacements`, and numbered groups are not stated.
- Formatter.DefaultTemplateUri: stated only for templates with one `{{verse}}` before one `{{version}}` and brace-free literal parts. The book name must be free of `{` and `$`, and the version free of `$`. Other templates are covered by `JsString.ReplaceFirst` and `Formatter.RangeUri` rather than by a closed form.
- Formatter.OliveTreeTemplateUri: stated only for the four placeholders in the order book, chapter, verse, version, with brace-free literal parts, a brace- and `$`-free book name and a `$`-free version.
- LegacyFormatter.TemplateUri: stated only for templates of the form `a{{verse}}b{{version}}c` with brace-free `a` and `b` and `$`-free book, range and version.
- LinkText.RenderInjective: it needs the two labels to have equal length. A label may itself contain `](`, so rendering alone does not fix where the label ends.
- LegacyParser.ScanRanges: its own contract does not state that each token is the longest one at its position. The scan takes `LegacyParser.RangeEnd` at every digit it starts from, and that function's contract states that no longer range token starts there.
- LegacyParser.VerseToLinkReads: it covers selections whose book word does not start with a digit unless a numeral precedes it, with exactly one white-space character before the range group, and whose group is followed by text that cannot extend it. Every group followed by `:`, `.` or `-` is outside the lemma, whatever comes next, and so is a book glued to its chapter as in `John3:16`. Those selections are stated only by the definition of `LegacyParser.VerseToLink`, and by the worked examples `LegacyExamples.ColonAfterRange` (`John 3:16:5`) and `LegacyExamples.GluedChapter` (`John3:16`).
- The case-insensitive flag of `verseParse`: it changes nothing, because `\d`, `\w` and `\s` have no case.
