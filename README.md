# Hywind IntelliJ plugin: a verified model of its token and catalog logic

Hywind is an IntelliJ plugin for a utility-class styling system. Its catalog of
classes and props is read from a JSON manifest, and the plugin then offers
these in markup:

- completion of class names inside `class="..."`, and of prop names as attribute names;
- a reference for every class token in an attribute value;
- hover documentation and quick info for the token under the caret.

This project models that logic in Dafny, once the IDE's PSI tree, HTTP and
JSON are replaced by the plain values the code reads from them:

| module | file | models |
|---|---|---|
| `Options`, `Lists` | options.dfy, lists.dfy | Kotlin's nullable values and `find` / `firstOrNull` |
| `Text` | text.dfy | the Kotlin string primitives the plugin relies on: the token class `[A-Za-z0-9:_-]`, `trim`, `lines().first()`, `indexOf`, `contains`, `replace`, `split(Regex("\\s+"))` |
| `Html` | html.dfy | `escapeHtml`, and the decoding that undoes it |
| `Catalog` | catalog.dfy | `HywindMetaLoader`: the records, the snapshot `meta` as a class field, the origin override, the publish / no-publish outcome of `reloadFromRemote` |
| `ClassReference` | class_reference.dfy | `getReferencesByElement`: `findAll` of the token regex, whose matches are the maximal token runs, and the `for` loop that builds one reference per match |
| `DocRender` | doc_render.dfy | `buildClassDoc` / `buildPropDoc` as structured fragments, `shortSummary`, `toHex` |
| `DocumentationProvider` | documentation_provider.dfy | `findTokenUnderCaret` (its caret scan as a method with the two `while` loops), `extractToken`, and the lookup order of `generateDoc` and `getQuickNavigateInfo` |
| `ReferenceDocProvider` | reference_doc_provider.dfy | the class-only documentation of a resolved reference |
| `Completion` | completion.dfy | the two completion providers, as `for` loops that add to a result set, and the exception `createColorIcon` throws for a colour channel outside 0..255 |

Main results:

- **Tokenizer.** The reference ranges are exactly the maximal runs of token
  characters. They are ordered, with a separator between neighbours, and
  cover every token character.
- **Caret scan.** The caret scan accepts exactly the text of the reference
  range that contains the clamped caret.
- **Escaping.** `escapeHtml` leaves no markup character. Every `&` it
  leaves begins an entity, and decoding gives the input back. The
  description keeps this property after `\n` becomes `<br/>`.
- **Splitting.** `split(Regex("\\s+"))` yields exactly the maximal
  `\s`-free slices of the text, in order, keeping an empty first or last part.
- **Colour.** `toHex` round-trips for channels in 0..255.
- **Catalog.** A reload publishes the whole adjusted snapshot, or nothing.
- **Lookup.** Props are searched before classes, and the first match wins.
- **Completion.** Suggestions are offered for exactly the catalog names
  (for classes, up to the first class whose colour `java.awt.Color` rejects),
  with the documented field choices.

Host inputs:

- A PSI element appears as its text range and text (`ElementInfo`).
- An attribute value appears as its unquoted value and start offset (`ValueInfo`).
- The ancestor searches of `PsiTreeUtil.getParentOfType` enter as their
  results: the enclosing attribute value, and the enclosing attribute's name.
- The hover element kind is `HoverElement`.
- The HTTP exchange and the parse together become `FetchResult`.
- The bundled manifest becomes `BundledResource`.
- The configured override is a parameter.

Two whitespace sets are fixed:

- Java's regex `\s` (space, \t, \n, \u000B, \f, \r), for `split(Regex("\\s+"))`.
- Kotlin's `Char.isWhitespace`, for `trim()` and `isBlank()`: \t..\r,
  U+001C..U+0020, U+00A0, U+1680, U+2000..U+200A, U+2028, U+2029, U+202F,
  U+205F and U+3000.

`lines()` breaks at \n and \r.

## Model

| member | source | states |
|---|---|---|
| Text.TrimStart | src/main/kotlin/li/kelp/hywindplugin/HywindDocumentationProvider.kt:189 | the result is a suffix of the input, every dropped character satisfies the predicate and the first kept one does not |
| Text.TrimEnd | src/main/kotlin/li/kelp/hywindplugin/HywindDocumentationProvider.kt:189 | the result is a prefix of the input, every dropped character satisfies the predicate and the last kept one does not |
| Text.TrimBy | src/main/kotlin/li/kelp/hywindplugin/HywindDocumentationProvider.kt:189 | `trim { p }` yields a contiguous slice; everything cut off on either side satisfies `p`, the ends of the slice do not |
| Text.Trim | src/main/kotlin/li/kelp/hywindplugin/HywindDocumentationProvider.kt:137 | `trim()` leaves no whitespace at either end and never lengthens the text; it gives "" exactly for a blank text (that it cuts off only whitespace is `TrimIsSlice`) |
| Text.TrimIsSlice | src/main/kotlin/li/kelp/hywindplugin/HywindDocumentationProvider.kt:137 | `trim()` keeps one contiguous slice of its input, and every character it cuts off on either side is whitespace |
| Text.TrimQuotesIsSlice | src/main/kotlin/li/kelp/hywindplugin/HywindReferenceDocumentationProvider.kt:16 | `trim('"', '\'')` keeps one contiguous slice of its input, and every character it cuts off on either side is a quote |
| Text.TrimKeepsNoLineBreak | src/main/kotlin/li/kelp/hywindplugin/HywindReferenceDocumentationProvider.kt:29 | trimming a text without line breaks introduces none |
| Text.TrimQuotes | src/main/kotlin/li/kelp/hywindplugin/HywindReferenceDocumentationProvider.kt:16 | `trim('"', '\'')` leaves no quote at either end and never lengthens the text (that it cuts off only quotes is `TrimQuotesIsSlice`) |
| Text.CleanToken | src/main/kotlin/li/kelp/hywindplugin/HywindReferenceDocumentationProvider.kt:16 | `trim().trim('"', '\'')` leaves neither quote at either end, never lengthens the text, and gives "" for a blank text |
| Text.TrimByNothing | src/main/kotlin/li/kelp/hywindplugin/HywindReferenceDocumentationProvider.kt:16 | a string whose ends do not satisfy the predicate is left as it is |
| Text.CleanKeepsToken | src/main/kotlin/li/kelp/hywindplugin/HywindReferenceDocumentationProvider.kt:16 | `trim().trim('"', '\'')` leaves a token unchanged |
| Text.FirstLine | src/main/kotlin/li/kelp/hywindplugin/HywindDocumentationProvider.kt:137 | `lines().first()` is a prefix without line breaks, followed by a line break or the end |
| Text.IndexFrom | src/main/kotlin/li/kelp/hywindplugin/HywindClassReference.kt:32 | the first occurrence at or after `from`, or -1 exactly when there is none |
| Text.IndexOf | src/main/kotlin/li/kelp/hywindplugin/HywindClassReference.kt:32 | the first occurrence, or a negative value exactly when the pattern does not occur |
| Text.Contains | src/main/kotlin/li/kelp/hywindplugin/HywindDocumentationProvider.kt:194 | `contains` holds exactly when the pattern occurs at some position |
| Text.ReplaceChar | src/main/kotlin/li/kelp/hywindplugin/HywindDocumentationProvider.kt:225-229 | `replace` of one character: it is gone when the replacement lacks it, the input is untouched when it lacks it, and no other character appears from nowhere |
| Text.ReplaceCharOne | src/main/kotlin/li/kelp/hywindplugin/HywindDocumentationProvider.kt:225-229 | on a one-character string the replacement acts on that character alone |
| Text.ReplaceCharConcat | src/main/kotlin/li/kelp/hywindplugin/HywindDocumentationProvider.kt:225-229 | replacing distributes over concatenation |
| Text.SpaceRunEnd | src/main/kotlin/li/kelp/hywindplugin/HywindDocumentationProvider.kt:192 | the end of a maximal run of `\s` characters |
| Text.Split | src/main/kotlin/li/kelp/hywindplugin/HywindDocumentationProvider.kt:192 | `split(Regex("\\s+"))` never yields an empty list and no part contains a `\s` character |
| Text.SplitSlices | src/main/kotlin/li/kelp/hywindplugin/HywindDocumentationProvider.kt:192 | the parts are the slices `s[lo_k..hi_k]` of the input at increasing cut points from 0 to the end; each gap between neighbours is a non-empty run of `\s`; only the first and the last part can be empty, and the first is non-empty when the input starts with a non-`\s` character |
| Text.SplitUnique | src/main/kotlin/li/kelp/hywindplugin/HywindDocumentationProvider.kt:192 | conversely, any `\s`-free parts laid out that way are exactly what `split` returns, so the parts are the maximal `\s`-free slices |
| Text.SplitNoSpace | src/main/kotlin/li/kelp/hywindplugin/HywindDocumentationProvider.kt:192 | a string without `\s` characters splits into itself alone |
| Lists.FirstIndex | src/main/kotlin/li/kelp/hywindplugin/HywindDocumentationProvider.kt:193-201 | the index of the first element satisfying the predicate, None exactly when none does |
| Lists.Find | src/main/kotlin/li/kelp/hywindplugin/HywindDocumentationProvider.kt:193-201 | `firstOrNull { p }`: null exactly when no element satisfies `p`, otherwise the first one that does |
| Lists.FindFirstHit | src/main/kotlin/li/kelp/hywindplugin/HywindDocumentationProvider.kt:193-201 | the first element satisfying the predicate is the one found |
| Html.EscapeHtml | src/main/kotlin/li/kelp/hywindplugin/HywindDocumentationProvider.kt:224-230 | the output of the five chained `replace` calls contains no `<`, `>`, `"` or `'` |
| Html.EscapeHtmlOneChar | src/main/kotlin/li/kelp/hywindplugin/HywindDocumentationProvider.kt:224-230 | on one character the five-step chain is that character's entity, or the character itself |
| Html.EscapeHtmlConcat | src/main/kotlin/li/kelp/hywindplugin/HywindDocumentationProvider.kt:224-230 | escaping distributes over concatenation, because `&` is replaced first and no later entity holds `<`, `>`, `"` or `'` |
| Html.EscapeHtmlIsEscapeEach | src/main/kotlin/li/kelp/hywindplugin/HywindDocumentationProvider.kt:224-230 | the chain of replacements equals escaping each character on its own |
| Html.EscapeHtmlEmpty | src/main/kotlin/li/kelp/hywindplugin/HywindDocumentationProvider.kt:224-230 | escaping "" gives "" |
| Html.EscapeEachIsEscaped | src/main/kotlin/li/kelp/hywindplugin/HywindDocumentationProvider.kt:224-230 | per-character escaping leaves no markup character, and every `&` begins an entity |
| Html.UnescapeEscapeChar | src/main/kotlin/li/kelp/hywindplugin/HywindDocumentationProvider.kt:224-230 | decoding consumes the entity of one character and yields that character |
| Html.UnescapeEscapeEach | src/main/kotlin/li/kelp/hywindplugin/HywindDocumentationProvider.kt:224-230 | decoding undoes per-character escaping |
| Html.EscapeHtmlSound | src/main/kotlin/li/kelp/hywindplugin/HywindDocumentationProvider.kt:224-230 | `escapeHtml` output has no `<`, `>`, `"` or `'`, every `&` begins one of the five entities, and decoding gives back the input |
| Html.EscapeHtmlKeepsNoLineBreak | src/main/kotlin/li/kelp/hywindplugin/HywindDocumentationProvider.kt:137-138 | escaping a line without line breaks introduces none |
| Html.UnBreakReplace | src/main/kotlin/li/kelp/hywindplugin/HywindDocumentationProvider.kt:234 | when the text holds no `<`, turning `<br/>` back into newlines undoes `replace("\n", "<br/>")` |
| Html.DescriptionHtmlSound | src/main/kotlin/li/kelp/hywindplugin/HywindDocumentationProvider.kt:234 | the description fragment has no newline and no quote; turning `<br/>` back into newlines gives exactly `escapeHtml` of the description, which is escaped (no markup character, every `&` an entity), and decoding it gives back the description |
| Catalog.LoadDefaultMeta | src/main/kotlin/li/kelp/hywindplugin/HywindMetaLoader.kt:27-39 | a missing bundled manifest gives empty class and prop lists; a present one gives what the parser returned |
| Catalog.ApplyOriginOverride | src/main/kotlin/li/kelp/hywindplugin/HywindMetaLoader.kt:73-79 | the override step keeps the number of classes and props and every class and prop name, position by position |
| Catalog.StampClasses | src/main/kotlin/li/kelp/hywindplugin/HywindMetaLoader.kt:76 | the same number of classes in the same order, each with `origin` set to the override and every other field unchanged |
| Catalog.StampProps | src/main/kotlin/li/kelp/hywindplugin/HywindMetaLoader.kt:77 | the same for props |
| Catalog.OverrideStampsEveryEntry | src/main/kotlin/li/kelp/hywindplugin/HywindMetaLoader.kt:73-79 | with a non-blank override, each published class and prop is the parsed entry with only `origin` replaced, lengths and order kept |
| Catalog.OverrideBlankIsIdentity | src/main/kotlin/li/kelp/hywindplugin/HywindMetaLoader.kt:74-79 | a null or blank override publishes the parsed catalog unchanged |
| Catalog.FindClass | src/main/kotlin/li/kelp/hywindplugin/HywindDocumentationProvider.kt:80 | `find { it.className == name }`: null exactly when no class has the name, otherwise the first that has it |
| Catalog.FindProp | src/main/kotlin/li/kelp/hywindplugin/HywindDocumentationProvider.kt:76 | `find { it.propName == name }`: null exactly when no prop has the name, otherwise the first that has it |
| Catalog.ClassNames | src/main/kotlin/li/kelp/hywindplugin/HywindDocumentationProvider.kt:197 | a name is among the known class names exactly when a class lookup by it succeeds |
| Catalog.FindClassRoundTrip | src/main/kotlin/li/kelp/hywindplugin/HywindDocumentationProvider.kt:80 | the lookup of any class's name succeeds, and returns that class unless an earlier class shares its name |
| Catalog.FindPropRoundTrip | src/main/kotlin/li/kelp/hywindplugin/HywindDocumentationProvider.kt:76 | the same for props |
| Catalog.FindClassAfterStamp | src/main/kotlin/li/kelp/hywindplugin/HywindMetaLoader.kt:76 | after the override, a name reaches the same class as before, re-stamped |
| Catalog.MetaLoader.constructor | src/main/kotlin/li/kelp/hywindplugin/HywindMetaLoader.kt:31-39 | the initial snapshot is `loadDefaultMeta()`, empty when the manifest is missing |
| Catalog.MetaLoader.ReloadFromRemote | src/main/kotlin/li/kelp/hywindplugin/HywindMetaLoader.kt:45-86 | returns true exactly for a 200 response whose body parses; then `meta`, `getClasses()` and `getProps()` are the override-adjusted catalog; on any other outcome it returns false and `meta` is unchanged |
| ClassReference.RunEnd | src/main/kotlin/li/kelp/hywindplugin/HywindClassReference.kt:24 | the end of the maximal run of token characters starting at an index |
| ClassReference.SpansFrom | src/main/kotlin/li/kelp/hywindplugin/HywindClassReference.kt:24-27 | every match from an index on lies within the value, non-empty |
| ClassReference.TokenSpans | src/main/kotlin/li/kelp/hywindplugin/HywindClassReference.kt:24-27 | every match of `findAll` is a non-empty range within the value |
| ClassReference.SpansFromRuns | src/main/kotlin/li/kelp/hywindplugin/HywindClassReference.kt:24-27 | from a run boundary on, every match is a maximal run of token characters |
| ClassReference.SpansFromOrdered | src/main/kotlin/li/kelp/hywindplugin/HywindClassReference.kt:24-27 | the matches are left to right with at least one separator between neighbours |
| ClassReference.SpansFromCover | src/main/kotlin/li/kelp/hywindplugin/HywindClassReference.kt:24-27 | a position holds a token character exactly when some match contains it |
| ClassReference.RunsUnique | src/main/kotlin/li/kelp/hywindplugin/HywindClassReference.kt:24-27 | two maximal runs sharing a position are the same |
| ClassReference.TokenSpansCharacterization | src/main/kotlin/li/kelp/hywindplugin/HywindClassReference.kt:24-28 | the references' ranges are exactly the maximal token runs: each range is one, every one is a range, they are strictly increasing and non-overlapping, and a character is covered exactly when it is a token character |
| ClassReference.NoTokenCharsNoSpans | src/main/kotlin/li/kelp/hywindplugin/HywindClassReference.kt:24-25 | an empty value, or one with no token character, gives no references |
| ClassReference.SpanAtIsRun | src/main/kotlin/li/kelp/hywindplugin/HywindClassReference.kt:24-28 | the range containing a position is the maximal run around it |
| ClassReference.Resolve | src/main/kotlin/li/kelp/hywindplugin/HywindClassReference.kt:36-39 | a reference resolves to an element whose name and text are exactly its token |
| ClassReference.ValueShift | src/main/kotlin/li/kelp/hywindplugin/HywindClassReference.kt:32 | the shift is where the value first occurs in the attribute text, or 0 when it does not occur |
| ClassReference.GetReferences | src/main/kotlin/li/kelp/hywindplugin/HywindClassReference.kt:18-45 | one reference per match in order; each value range is the match `[first, last + 1)`, its token is the matched text, and its attribute range is the value range shifted by `ValueShift` |
| ClassReference.RefsForAppend | src/main/kotlin/li/kelp/hywindplugin/HywindClassReference.kt:25-42 | adding a match together with the reference built for it keeps the list of references in step with the list of matches |
| ClassReference.ThreeTokens | src/main/kotlin/li/kelp/hywindplugin/HywindClassReference.kt:24-28 | `"a b-c :d_e"` yields the ranges [0,1), [2,5) and [6,10) |
| DocRender.EscapeOpt | src/main/kotlin/li/kelp/hywindplugin/HywindDocumentationProvider.kt:235-236 | an optional fragment is present exactly when its field is, escaped and decoding to the field |
| DocRender.DescriptionFragment | src/main/kotlin/li/kelp/hywindplugin/HywindDocumentationProvider.kt:234 | the description fragment has no newline; with `<br/>` turned back into newlines it is escaped (no markup character, every `&` an entity) and decodes to the description, or to "" when there is none |
| DocRender.BuildClassDoc | src/main/kotlin/li/kelp/hywindplugin/HywindDocumentationProvider.kt:249-268 | the title, code and origin are escaped and decode to their fields; the description has no newline, is escaped once `<br/>` is turned back into newlines, and decodes to the description; the swatch is present exactly when there is a colour; the code and origin blocks are present exactly when their fields are |
| DocRender.BuildPropDoc | src/main/kotlin/li/kelp/hywindplugin/HywindDocumentationProvider.kt:232-247 | the same as for a class doc, without a swatch |
| DocRender.ShortSummary | src/main/kotlin/li/kelp/hywindplugin/HywindDocumentationProvider.kt:135-139 | "" for a null description; otherwise escaped and without line breaks, decoding to the trimmed first line |
| DocRender.HexDigitRoundTrip | src/main/kotlin/li/kelp/hywindplugin/HywindDocumentationProvider.kt:132 | a `%X` digit is upper-case and reads back as its value |
| DocRender.Hex02 | src/main/kotlin/li/kelp/hywindplugin/HywindDocumentationProvider.kt:132 | `%02X` of any `Int` is at least two upper-case hex digits |
| DocRender.ToHex | src/main/kotlin/li/kelp/hywindplugin/HywindDocumentationProvider.kt:131-133 | `toHex` of any three `Int`s is `#` followed by at least six upper-case hex digits |
| DocRender.Hex02Channel | src/main/kotlin/li/kelp/hywindplugin/HywindDocumentationProvider.kt:132 | for 0..255, `%02X` is two digits, high nibble first |
| DocRender.Hex02Decode | src/main/kotlin/li/kelp/hywindplugin/HywindDocumentationProvider.kt:132 | for 0..255, `%02X` is two upper-case hex digits whose value is the channel |
| DocRender.ToHexRoundTrip | src/main/kotlin/li/kelp/hywindplugin/HywindDocumentationProvider.kt:131-133 | for channels in 0..255, `toHex` is `#` and six upper-case hex digits, two per channel in r, g, b order, which decode back to r, g, b |
| DocumentationProvider.CaretIndex | src/main/kotlin/li/kelp/hywindplugin/HywindDocumentationProvider.kt:159-162 | the caret index is start + length/2 - (attribute start + 1), clamped to 0 when negative and to the last index when too large; -1 for an empty value |
| DocumentationProvider.ScanResultIsMaximalRun | src/main/kotlin/li/kelp/hywindplugin/HywindDocumentationProvider.kt:164-181 | the scan accepts something exactly when the caret character is a token character; what it accepts is the maximal token run around the caret, a token, and the text of the reference range containing the caret; nothing for an empty value |
| DocumentationProvider.CoveringSpan | src/main/kotlin/li/kelp/hywindplugin/HywindDocumentationProvider.kt:164-181 | a token character under the caret lies in one reference range, a maximal token run, and that range is the one the lookup finds |
| DocumentationProvider.ScanAccepts | src/main/kotlin/li/kelp/hywindplugin/HywindDocumentationProvider.kt:178-181 | once both scans stop at a boundary, the substring is accepted as a token exactly when it is one, and it is then the text of the reference range around the caret; otherwise nothing |
| DocumentationProvider.ScannedRun | src/main/kotlin/li/kelp/hywindplugin/HywindDocumentationProvider.kt:164-177 | when the caret character is a token character, the two scans stop at the ends of the maximal token run around it |
| DocumentationProvider.ScanAtCaret | src/main/kotlin/li/kelp/hywindplugin/HywindDocumentationProvider.kt:153-184 | the clamp and the two scanning loops accept exactly the text of the reference range containing the caret, and no index goes out of range |
| DocumentationProvider.EqualPart | src/main/kotlin/li/kelp/hywindplugin/HywindDocumentationProvider.kt:193 | `parts.firstOrNull { it == origText }`: present exactly when some part equals the text, and then it is the text itself |
| DocumentationProvider.ContainingPart | src/main/kotlin/li/kelp/hywindplugin/HywindDocumentationProvider.kt:194 | the first part containing the text, null exactly when none does |
| DocumentationProvider.KnownPart | src/main/kotlin/li/kelp/hywindplugin/HywindDocumentationProvider.kt:196-198 | the first part that is a known class name, null exactly when none is |
| DocumentationProvider.FirstPart | src/main/kotlin/li/kelp/hywindplugin/HywindDocumentationProvider.kt:201 | the first part, present exactly when it is not blank |
| DocumentationProvider.ValueFallback | src/main/kotlin/li/kelp/hywindplugin/HywindDocumentationProvider.kt:186-201 | the five fallbacks in their fixed order, each taken exactly when the earlier ones fail: the cleaned text when the text is not blank and the cleaned text is a token; else the text itself when a part equals it; else the first part containing it; else the first known class among the parts; else the first part unless it is blank, and null then. Any result is the cleaned text or a part |
| DocumentationProvider.ValueFallbackEmptyText | src/main/kotlin/li/kelp/hywindplugin/HywindDocumentationProvider.kt:186-201 | an empty original text always yields a result: every part contains "", so the `contains` step succeeds at the latest |
| DocumentationProvider.ValueFallbackAcceptsToken | src/main/kotlin/li/kelp/hywindplugin/HywindDocumentationProvider.kt:187-190 | an original text that is itself a token is returned by the first fallback, before any part is looked at |
| DocumentationProvider.ValueFallbackPrefersEqualPart | src/main/kotlin/li/kelp/hywindplugin/HywindDocumentationProvider.kt:188-193 | when the cleaned text is not accepted, a part equal to the original text wins over all later steps |
| DocumentationProvider.ElementFallback | src/main/kotlin/li/kelp/hywindplugin/HywindDocumentationProvider.kt:204-212 | outside an attribute value the result is the element's text when it is a token, else the enclosing attribute's name; null only when there is no enclosing attribute |
| DocumentationProvider.TokenUnderCaret | src/main/kotlin/li/kelp/hywindplugin/HywindDocumentationProvider.kt:141-213 | null when there is neither an original nor a context element; inside an attribute value, the scan at the caret when it yields a token, else the value fallbacks when they yield one, else the element fallback; outside one, the element fallback; any result is a token, a whitespace-separated part of the enclosing value, or the enclosing attribute's name |
| DocumentationProvider.FindTokenUnderCaret | src/main/kotlin/li/kelp/hywindplugin/HywindDocumentationProvider.kt:141-213 | the early-return procedure computes the ordered chain: null without elements; then the scan, the value fallbacks, the element's own token text, the enclosing attribute's name |
| DocumentationProvider.CaretOnTokenResolvesToIt | src/main/kotlin/li/kelp/hywindplugin/HywindDocumentationProvider.kt:155-181 | a one-character leaf at a position inside a reference range resolves to that range's token |
| DocumentationProvider.ScanOnRange | src/main/kotlin/li/kelp/hywindplugin/HywindDocumentationProvider.kt:163-183 | the scan at an offset inside a reference range yields that range's token |
| DocumentationProvider.EmptyValueSkipsScan | src/main/kotlin/li/kelp/hywindplugin/HywindDocumentationProvider.kt:160-181 | an empty value is resolved by the fallbacks only |
| DocumentationProvider.HoverOnClassNameWithLeadingSpace | src/main/kotlin/li/kelp/hywindplugin/HywindDocumentationProvider.kt:143-190 | hovering the name of `class=" p-4"` resolves to "class": the clamped caret is on the space, and the cleaned hovered text is a token |
| DocumentationProvider.ExtractToken | src/main/kotlin/li/kelp/hywindplugin/HywindDocumentationProvider.kt:215-221 | null for a null text; any result is a token |
| DocumentationProvider.ExtractTokenLeftmost | src/main/kotlin/li/kelp/hywindplugin/HywindDocumentationProvider.kt:215-221 | `extractToken` is null exactly when there is no token character, otherwise the leftmost maximal token run |
| DocumentationProvider.LookupDoc | src/main/kotlin/li/kelp/hywindplugin/HywindDocumentationProvider.kt:75-84 | when a prop has the name, the doc of the first such prop; otherwise, when a class has it, the doc of the first such class; null exactly when neither lookup succeeds |
| DocumentationProvider.FirstKnownPart | src/main/kotlin/li/kelp/hywindplugin/HywindDocumentationProvider.kt:19-21 | the first whitespace-separated part of the value that is a catalog class name, null exactly when no part is one; the class lookup finds any part it returns (the same expression at `:46-48` and `:96-98`) |
| DocumentationProvider.KnownPartNone | src/main/kotlin/li/kelp/hywindplugin/HywindDocumentationProvider.kt:21 | `firstOrNull { it in known }` over a value's parts is null exactly when no part is a known class name |
| DocumentationProvider.ClassDocFor | src/main/kotlin/li/kelp/hywindplugin/HywindDocumentationProvider.kt:50-53 | null exactly when there is no class token or no class has it; otherwise the class doc of the first class with that name |
| DocumentationProvider.LookupDocOrder | src/main/kotlin/li/kelp/hywindplugin/HywindDocumentationProvider.kt:75-84 | by position: when some prop has the name, the doc is that of the first index `i` with `props[i]` named so; when no prop has it but a class does, that of the first such class index; null exactly when neither list has the name |
| DocumentationProvider.AttributePhase | src/main/kotlin/li/kelp/hywindplugin/HywindDocumentationProvider.kt:15-28 | only the `class` attribute with a value yields a doc here, and it is the class doc of a catalog class |
| DocumentationProvider.ValuePhase | src/main/kotlin/li/kelp/hywindplugin/HywindDocumentationProvider.kt:30-54 | only a request with an enclosing attribute value yields a doc here, and it is the class doc of a catalog class |
| DocumentationProvider.NamePhase | src/main/kotlin/li/kelp/hywindplugin/HywindDocumentationProvider.kt:56-84 | with a caret token, the result is the props-then-classes lookup of that token; any doc is that of a catalog class or prop |
| DocumentationProvider.FallbackName | src/main/kotlin/li/kelp/hywindplugin/HywindDocumentationProvider.kt:59-71 | with no caret token: the first token of an attribute value, an attribute's own name, or otherwise the first token of the original element's text, or of the element's text when there is none (the same choice at `:111-115`); every fallback except an attribute name is a token |
| DocumentationProvider.GenerateDoc | src/main/kotlin/li/kelp/hywindplugin/HywindDocumentationProvider.kt:10-85 | null for a null element; any doc shown is the class doc or prop doc of a catalog entry (the whole dispatch is `GenerateDocWithCaretToken` and `GenerateDocWithoutCaretToken`) |
| DocumentationProvider.GenerateDocOnClassAttribute | src/main/kotlin/li/kelp/hywindplugin/HywindDocumentationProvider.kt:15-26 | on the `class` attribute with a value, the caret token, or else the value's first known class, names the class whose doc is shown, before the other phases |
| DocumentationProvider.GenerateDocClassInValue | src/main/kotlin/li/kelp/hywindplugin/HywindDocumentationProvider.kt:41-53 | inside an attribute value, a caret token naming a class shows that class before props are consulted |
| DocumentationProvider.GenerateDocOutsideAttributes | src/main/kotlin/li/kelp/hywindplugin/HywindDocumentationProvider.kt:56-84 | outside attributes, the caret token goes through the props-then-classes lookup |
| DocumentationProvider.GenerateDocWithCaretToken | src/main/kotlin/li/kelp/hywindplugin/HywindDocumentationProvider.kt:15-84 | with a caret token: the class of that name when the hover is on the `class` attribute with a value or inside an attribute value and such a class exists; in every other case (a prop attribute without a value, or a token naming no class, included) the props-then-classes lookup of the token |
| DocumentationProvider.GenerateDocWithoutCaretToken | src/main/kotlin/li/kelp/hywindplugin/HywindDocumentationProvider.kt:15-84 | without a caret token: the first known class of the `class` attribute's value, else the first known class of the enclosing value, else the props-then-classes lookup of the by-kind fallback name, and null when there is none |
| DocumentationProvider.GenerateDocOnClassNameWithLeadingSpace | src/main/kotlin/li/kelp/hywindplugin/HywindDocumentationProvider.kt:15-84 | with the caret token "class", the `class` attribute's own classes are not consulted; the result is the lookup of "class" |
| DocumentationProvider.ClassQuickInfo | src/main/kotlin/li/kelp/hywindplugin/HywindDocumentationProvider.kt:103-105 | the class quick info begins with the token and ends with the class's short summary |
| DocumentationProvider.ClassQuickInfoShape | src/main/kotlin/li/kelp/hywindplugin/HywindDocumentationProvider.kt:103-105 | the class quick info is the token, then " (#RRGGBB)" exactly when there is a preview colour, then " — " and the short summary |
| DocumentationProvider.AttributeQuickInfo | src/main/kotlin/li/kelp/hywindplugin/HywindDocumentationProvider.kt:91-109 | only the `class` attribute with a value yields a quick info here, and it is the name, colour and summary of a catalog class |
| DocumentationProvider.AttributeQuickInfoFinds | src/main/kotlin/li/kelp/hywindplugin/HywindDocumentationProvider.kt:92-106 | on the `class` attribute, a caret token (or else first known class) that names a class gives that class's quick info |
| DocumentationProvider.NameQuickInfo | src/main/kotlin/li/kelp/hywindplugin/HywindDocumentationProvider.kt:118-128 | when a prop has the name, the short summary of the first such prop; otherwise the quick info of the first class with the name, or null |
| DocumentationProvider.QuickNavigateInfo | src/main/kotlin/li/kelp/hywindplugin/HywindDocumentationProvider.kt:88-129 | null for a null element; any quick info is the short summary of a catalog prop, or the name, colour and summary of a catalog class (the whole dispatch is `QuickNavigateInfoWithCaretToken` and `QuickNavigateInfoWithoutCaretToken`) |
| DocumentationProvider.QuickNavigateInfoWithCaretToken | src/main/kotlin/li/kelp/hywindplugin/HywindDocumentationProvider.kt:92-128 | with a caret token: on the `class` attribute with a value, the quick info of the class of that name when there is one; otherwise, and everywhere else, the props-then-classes quick info of the token |
| DocumentationProvider.QuickNavigateInfoWithoutCaretToken | src/main/kotlin/li/kelp/hywindplugin/HywindDocumentationProvider.kt:92-128 | without a caret token: the quick info of the first known class of the `class` attribute's value, else the props-then-classes quick info of the by-kind fallback name, and null when there is none |
| DocumentationProvider.QuickNavigateInfoOnClassAttribute | src/main/kotlin/li/kelp/hywindplugin/HywindDocumentationProvider.kt:92-106 | on the `class` attribute with a value, when the caret token, or else the value's first known class, names a class, the quick info is that class's name, colour and summary |
| DocumentationProvider.QuickNavigateInfoPrefersProps | src/main/kotlin/li/kelp/hywindplugin/HywindDocumentationProvider.kt:111-121 | anywhere but on the `class` attribute with a value (a prop attribute included), a prop's short summary wins over a class of the same name |
| DocumentationProvider.QuickNavigateInfoFallsBackToClass | src/main/kotlin/li/kelp/hywindplugin/HywindDocumentationProvider.kt:111-128 | anywhere but on the `class` attribute with a value, a name no prop carries gives the quick info of the first class with that name, and null when there is none |
| ReferenceDocProvider.HoverText | src/main/kotlin/li/kelp/hywindplugin/HywindReferenceDocumentationProvider.kt:11-14 | a resolved class element's text is its name; another element's text is the original element's text when there is one; null exactly when both texts are null |
| ReferenceDocProvider.GenerateDoc | src/main/kotlin/li/kelp/hywindplugin/HywindReferenceDocumentationProvider.kt:8-20 | null for a null element; any doc shown is the class doc of a catalog class whose name is the cleaned hover text |
| ReferenceDocProvider.GenerateDocFindsClass | src/main/kotlin/li/kelp/hywindplugin/HywindReferenceDocumentationProvider.kt:8-20 | a doc is shown exactly when some class is named by the cleaned hover text, and it is the first such class's doc |
| ReferenceDocProvider.ResolvedReferenceDoc | src/main/kotlin/li/kelp/hywindplugin/HywindReferenceDocumentationProvider.kt:11-18 | for the element a reference resolves to, the original element is ignored and the doc is the class named by the token |
| ReferenceDocProvider.GenerateDocOfText | src/main/kotlin/li/kelp/hywindplugin/HywindReferenceDocumentationProvider.kt:11-18 | with hover text `t`, the doc is that of the first class named by the cleaned `t`, or null |
| ReferenceDocProvider.FindClassOfToken | src/main/kotlin/li/kelp/hywindplugin/HywindReferenceDocumentationProvider.kt:16-17 | looking up a token needs no cleaning: cleaning a token leaves the lookup unchanged |
| ReferenceDocProvider.ReferenceTokensAreTokens | src/main/kotlin/li/kelp/hywindplugin/HywindClassReference.kt:24-28 | every reference's token is a token, so cleaning keeps it |
| ReferenceDocProvider.QuickToken | src/main/kotlin/li/kelp/hywindplugin/HywindReferenceDocumentationProvider.kt:23-26 | the hover text of the element; for a null element, the original element's text (where `generateDoc` gives null at `:9`); a class element's own name |
| ReferenceDocProvider.QuickNavigateInfo | src/main/kotlin/li/kelp/hywindplugin/HywindReferenceDocumentationProvider.kt:22-30 | any quick info is one line with no whitespace at either end, and comes from a catalog class that is named by the cleaned text and has a description |
| ReferenceDocProvider.QuickNavigateInfoIsRawSummary | src/main/kotlin/li/kelp/hywindplugin/HywindReferenceDocumentationProvider.kt:22-30 | with `t` the hover text: a quick info is shown exactly when the first class named by the cleaned `t` has a description, and it is then that description's short summary in the main provider with the escaping undone |
| Completion.ClassElement | src/main/kotlin/li/kelp/hywindplugin/MyHtmlCompletionContributor.kt:32-48 | no suggestion exactly when the preview colour has a channel outside 0..255, where `createColorIcon` (`:79-82`) throws; otherwise the suggestion shows the name; the origin when it is not blank, else the description or ""; an icon exactly when there is a preview colour; as tail two spaces and the first description line, present exactly when the description is not blank |
| Completion.CompletedCount | src/main/kotlin/li/kelp/hywindplugin/MyHtmlCompletionContributor.kt:31-50 | the loop gets through every class before the first one whose icon throws, and through all of them exactly when none throws |
| Completion.ClassElements | src/main/kotlin/li/kelp/hywindplugin/MyHtmlCompletionContributor.kt:31-50 | one suggestion per class the loop gets through, in catalog order, each the element built for that class |
| Completion.PropElement | src/main/kotlin/li/kelp/hywindplugin/MyHtmlCompletionContributor.kt:69-72 | a prop suggestion shows the name, the description or "", no icon, and as tail two spaces and the origin, present exactly when the origin is not blank |
| Completion.PropElements | src/main/kotlin/li/kelp/hywindplugin/MyHtmlCompletionContributor.kt:68-73 | one suggestion per catalog prop, in catalog order, each the prop suggestion of that prop and showing its name |
| Completion.CompletionOffersCatalogNames | src/main/kotlin/li/kelp/hywindplugin/MyHtmlCompletionContributor.kt:29-72 | a name is suggested in a class value exactly when it is the name of a class the loop gets through, so exactly when it is a catalog class's name if no icon throws; and as an attribute exactly when a prop carries it |
| Completion.ClassNamesOffered | src/main/kotlin/li/kelp/hywindplugin/MyHtmlCompletionContributor.kt:31-50 | the class names suggested are those of the classes before the first throwing one |
| Completion.PropNamesOffered | src/main/kotlin/li/kelp/hywindplugin/MyHtmlCompletionContributor.kt:68-73 | the prop names suggested are exactly the names of the catalog props |
| Completion.OutOfRangeColourStopsCompletion | src/main/kotlin/li/kelp/hywindplugin/MyHtmlCompletionContributor.kt:31-36 | a first class with the colour (300, 0, 0) throws before anything is added: no class is suggested, not even a later one |
| Completion.ResultSet.constructor | src/main/kotlin/li/kelp/hywindplugin/MyHtmlCompletionContributor.kt:25 | a result set starts out empty |
| Completion.ResultSet.AddElement | src/main/kotlin/li/kelp/hywindplugin/MyHtmlCompletionContributor.kt:50 | `addElement` appends one suggestion |
| Completion.AddClassCompletions | src/main/kotlin/li/kelp/hywindplugin/MyHtmlCompletionContributor.kt:27-52 | only a `class` attribute gets suggestions: one per catalog class in catalog order, up to the first class whose icon throws; the method reports the abort exactly when some class throws, and the suggestions added before it remain; any other attribute adds nothing |
| Completion.ClassElementsStep | src/main/kotlin/li/kelp/hywindplugin/MyHtmlCompletionContributor.kt:31-50 | a class the loop gets through extends the suggestions by its own element |
| Completion.ClassElementsUpTo | src/main/kotlin/li/kelp/hywindplugin/MyHtmlCompletionContributor.kt:31-50 | at the first throwing class, or at the end, every suggestion has been added |
| Completion.AddPropCompletions | src/main/kotlin/li/kelp/hywindplugin/MyHtmlCompletionContributor.kt:67-73 | one suggestion per catalog prop, in order |

## Left out

- PSI tree walking (`getParentOfType`, `textRange`, `valueElement`, the `XmlAttribute` type tests): its answers are inputs (`ElementInfo`, `ValueInfo`, the enclosing attribute's name, `HoverElement`, `HoverRequest.enclosingValue`).
- `HoverRequest.caretToken`: `generateDoc` and `getQuickNavigateInfo` call `findTokenUnderCaret` several times with the same arguments, so its one result is an input there; `TokenUnderCaret` says what it is.
- HTTP, the temporary file and Gson in `reloadFromRemote` and `loadDefaultMeta`: abstract outcomes (`FetchResult`, `BundledResource`). Disconnecting is not modelled.
- A malformed bundled manifest: `loadDefaultMeta` does not catch the parser's exception, so there is no outcome for it.
- `@Volatile`, the reload thread and `invokeLater`; the settings UI and storage; the `LightElement` wrapper; icon painting in `createColorIcon` (an icon is modelled as its colour; the range check of `java.awt.Color`, which throws, is modelled).
- Byte-exact HTML (`trimIndent`, inline CSS): docs are the fragments and their escaped text.
- The `true` grayed-out flag passed to `withTypeText` / `withTailText`, which is the same at every call.
- The completion patterns (`withParent`, `withLanguage`): `AddClassCompletions` receives the name of the value's attribute, or None when its parent is not an attribute.
- Kotlin's Unicode tables: `isWhitespace`, `\s` and `lines()` use the fixed sets stated above.
- DocRender.ToHexRoundTrip: stated for channels 0..255 only. `Hex02` does model `%02X` on any Kotlin `Int`, negatives as 32-bit two's complement.
- The caret search uses no nearest-token-by-distance fallback and no narrowest-range rule: it takes the midpoint, clamps it, scans, then tries the fallbacks.
- The `catch` around the caret scan: no index in it can go out of range (`ScanAtCaret` verifies every access), so the catch is unreachable.
- `escapeHtml` and `buildClassDoc` are written out twice in the source, once per provider, with the same text: both providers use the one definition in `Html` and `DocRender`.
- Offsets count characters (Unicode code points), while Kotlin strings and PSI text ranges count UTF-16 code units. `CaretIndex`, `ScanAtCaret`, `TokenSpans` and `GetReferences` therefore agree with the plugin only on text without characters outside the Basic Multilingual Plane. In `class="🎨 p-4"` the plugin gives "p-4" the value range [3,6) and the model gives it [2,5).
- Catalog.MetaLoader.Classes, Catalog.MetaLoader.Props: plain getters of the snapshot with no contract of their own. What they return is stated by the constructor's and `ReloadFromRemote`'s ensures.
- What the platform does with the exception `AddClassCompletions` reports, and with the suggestions added before it, is outside the plugin: the model keeps them in the result set and returns `completed == false`.
