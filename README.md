# Java2SharpDoc comment transpiler in Dafny

Java2SharpDoc turns a Javadoc block comment (`/** … */`) into C# XML
documentation (`///` lines). This project models its conversion engine:

- **`DocConverter`**, the current engine (module `DocConversion`). It checks
  the delimiters and removes every `/**` and `*/`. It splits the body into
  non-empty lines and cuts those lines into segments at the five tags
  `@param`, `@see`, `@throws`, `@return` and `@deprecated`. Each segment
  becomes one `///` element, with inline `{@link X}` rewritten to
  `<see cref="X"/>`. The last `@deprecated` text comes back separately as a
  `[System.Obsolete("…")]` attribute.
- **`Converter`**, the older engine (module `LegacyConversion`). It trims the
  input first and returns `None` (the source's `null`) for a rejected one. It
  keeps empty segment results and appends `[Obsolete("…")]` to the one string
  it returns. Its link rewriting keeps `#` and has no guard for a missing `}`.
- **`DocHelper`**, the tag and attribute string builders (module `DocHelper`).

The engines share their line normalisation (`*` removed, then trimmed), their
segmentation and their per-segment parsing. These live once, in modules
`Segmentation` and `SegmentConversion`. Per segment, the engines differ only in link
rewriting (module `LinkRewriting`), so `Render` and `Message` take an `Engine`
parameter. Module `Text` models the .NET string operations the source calls:
`Trim`, ordinal `StartsWith`/`EndsWith`/`IndexOf`, `Replace`, `Split` with
`RemoveEmptyEntries`, and `string.Join`.

Each stateful part is a class or method over the source's own state:

- `DocConverter` and `Converter` are classes with the fields `lines` and
  `obsoleteMessage`.
- `FindSegments`/`FindChunks`, the segment loops and both `ReplaceLinks` loops
  are methods with loop invariants.
- Each method is proved equal to a specification function:
  - `Segments` for segmentation;
  - `ResolveLinks` and `LegacyResolveLinks` for link rewriting;
  - `Parse`/`Render`/`Message` for one segment;
  - `Conversion` and `LegacyResult` for the whole call.

The properties are proved about those functions.

Two details of the code shape the body lines:

- Both delimiters are removed at every occurrence, anywhere in the comment
  (Java2SharpDoc/Services/DocConverter.cs:44, Java2SharpDoc/Services/Converter.cs:46).
- `DocConverter` tests the delimiters on the start-trimmed and end-trimmed
  input, then splits the untrimmed input, so whitespace around the
  delimiters becomes body text (Java2SharpDoc/Services/DocConverter.cs:38-45).
  `Converter` trims the input before it tests and splits
  (Java2SharpDoc/Services/Converter.cs:39-47).

## Model

| member | source | states |
|---|---|---|
| DocHelper.CreateStartTag | Java2SharpDoc/Services/TagHelper.cs:6 | the result is `<`, the tag, `>` |
| DocHelper.CreateEndTag | Java2SharpDoc/Services/TagHelper.cs:8 | the result is `</`, the tag, `>` |
| DocHelper.CreateTag | Java2SharpDoc/Services/TagHelper.cs:10-13 | starts with the start tag, ends with the end tag, and holds exactly the content between them |
| DocHelper.CreateTagWithVar | Java2SharpDoc/Services/TagHelper.cs:15-18 | the self-closing `<t n="` opening, then exactly the value, then `"/>` |
| DocHelper.TagWithVarLacks | Java2SharpDoc/Services/TagHelper.cs:15-18 | a character absent from tag, name, value and the fixed punctuation is absent from the tag, so no `}` or `#` is introduced by a `<see cref=…/>` |
| DocHelper.CreateTagWithVarAndContent | Java2SharpDoc/Services/TagHelper.cs:20-23 | `<t n="v">` then exactly the content, ending in `CreateEndTag(t)` |
| DocHelper.CreateAttribute | Java2SharpDoc/Services/TagHelper.cs:25-28 | `[`, the name, `]` |
| DocHelper.Quote | Java2SharpDoc/Services/TagHelper.cs:32-35 | the result is quoted; an already quoted value passes unchanged; any other value is wrapped in one pair of `"` |
| DocHelper.CreateAttributeWithValue | Java2SharpDoc/Services/TagHelper.cs:30-37 | `[name("` … `")]` around exactly the quoted value |
| DocHelper.QuoteIdempotent | Java2SharpDoc/Services/TagHelper.cs:30-37 | quoting twice equals quoting once, so an attribute built from a quoted value is the one built from the raw value |
| Text.TrimStart | Java2SharpDoc/Services/DocConverter.cs:38 | the result is a suffix of the input, what was removed is blank, and it starts with no whitespace |
| Text.TrimEnd | Java2SharpDoc/Services/DocConverter.cs:38 | the result is a prefix of the input, what was removed is blank, and it ends with no whitespace |
| Text.Trim | Java2SharpDoc/Services/Converter.cs:39 | `TrimEnd` of `TrimStart` (no contract; see `TrimSpan` and `TrimEmptyIffBlank`) |
| Text.StartsWith | Java2SharpDoc/Services/DocConverter.cs:38 | ordinal prefix test (no contract) |
| Text.EndsWith | Java2SharpDoc/Services/DocConverter.cs:38 | ordinal suffix test (no contract) |
| Text.TrimEmptyIffBlank | Java2SharpDoc/Services/DocConverter.cs:110-111 | trimming leaves nothing exactly when the string is blank (`IsNullOrWhiteSpace`) |
| Text.TrimSpan | Java2SharpDoc/Services/Converter.cs:39 | `Trim` leaves exactly the span from the first to the last non-whitespace character |
| Text.TrimKeepsPrefix | Java2SharpDoc/Services/Converter.cs:39-40 | for a prefix ending in non-whitespace, the fully trimmed string starts with it iff the start-trimmed one does |
| Text.TrimKeepsSuffix | Java2SharpDoc/Services/Converter.cs:39-40 | for a suffix starting with non-whitespace, the fully trimmed string ends with it iff the end-trimmed one does |
| Text.IndexOf | Java2SharpDoc/Services/DocConverter.cs:231 | -1 or a position where the pattern occurs at or after the start, with no earlier occurrence |
| Text.CountChar | Java2SharpDoc/Services/DocConverter.cs:237 | the count of `}` is at most the length, and zero iff there is none |
| Text.CountCharSplice | Java2SharpDoc/Services/DocConverter.cs:245-249 | replacing a span that ends at the first `c` with text free of `c` removes exactly one `c` |
| Text.Replace | Java2SharpDoc/Services/DocConverter.cs:44 | left-to-right, non-overlapping replacement of every occurrence (no contract; see the lemmas below) |
| Text.RemoveCharLeavesNone | Java2SharpDoc/Services/DocConverter.cs:246 | removing every `#` leaves none |
| Text.RemoveAbsentChar | Java2SharpDoc/Services/DocConverter.cs:246 | removing an absent character changes nothing |
| Text.RemoveCharKeepsOthers | Java2SharpDoc/Services/DocConverter.cs:246 | removing `#` brings in no `}` |
| Text.Without | Java2SharpDoc/Services/DocConverter.cs:246 | a reference filter built from the right: no `c` is left, the length drops by the count of `c`, every other character stays |
| Text.RemoveCharAppend | Java2SharpDoc/Services/DocConverter.cs:246 | removing one character distributes over concatenation |
| Text.RemoveCharOne | Java2SharpDoc/Services/DocConverter.cs:246 | a one-character string loses its character exactly when it is the removed one |
| Text.RemoveCharIsWithout | Java2SharpDoc/Services/DocConverter.cs:246 | `Replace(s, [c], "")` equals the reference `Without(s, c)`: the other characters survive, in order |
| Text.ReplaceSkips | Java2SharpDoc/Services/DocConverter.cs:44 | where no occurrence starts inside a prefix, replacing keeps that prefix as it is |
| Text.Split | Java2SharpDoc/Services/DocConverter.cs:45 | at least one part, and no part holds the separator |
| Text.SplitJoin | Java2SharpDoc/Services/DocConverter.cs:45 | joining the parts with the separator gives back the text |
| Text.NonEmptyEntries | Java2SharpDoc/Services/DocConverter.cs:45 | the kept parts are all non-empty, every non-empty part is kept, nothing else appears, and a single part is kept exactly when it is non-empty |
| Text.NonEmptyEntriesAppend | Java2SharpDoc/Services/DocConverter.cs:45 | the filter works part by part: filtering `a + b` is filtering `a` then `b`, so order and repeats are kept |
| Text.NonEmptyEntriesKeepsAll | Java2SharpDoc/Services/DocConverter.cs:52-55 | a list with no empty entry is kept whole by the filter |
| Text.Join | Java2SharpDoc/Services/DocConverter.cs:58 | `string.Join` (no contract; see `JoinAppend` and `JoinPrepend`) |
| Text.JoinAppend | Java2SharpDoc/Services/Converter.cs:57-59 | joining with one more entry appends separator and entry |
| Text.JoinPrepend | Java2SharpDoc/Services/DocConverter.cs:58 | a part put in front of a non-empty list is joined to it by one separator |
| Text.JoinEndsWithLast | Java2SharpDoc/Services/Converter.cs:57-59 | the last of at least two joined entries ends the result behind a separator |
| LinkRewriting.FirstMarker | Java2SharpDoc/Services/DocConverter.cs:231 | -1 or the position of an occurrence of `{@link ` |
| LinkRewriting.ClosingBrace | Java2SharpDoc/Services/DocConverter.cs:237 | -1 or a `}` at or after the start, with no `}` before it from the start |
| LinkRewriting.BraceAfterMarker | Java2SharpDoc/Services/DocConverter.cs:237-243 | the `}` found from a marker lies after the whole marker, so the reference slice is well-defined |
| LinkRewriting.RewriteDropsOneBrace | Java2SharpDoc/Services/DocConverter.cs:243-249 | one rewrite removes exactly one `}` and adds none, so the loop terminates |
| LinkRewriting.StrippedTarget | Java2SharpDoc/Services/DocConverter.cs:246 | the reference written holds no `#` and no `}` |
| LinkRewriting.StrippedTargetIsWithout | Java2SharpDoc/Services/DocConverter.cs:246 | the reference is the link text with every `#` dropped and the other characters kept in order, so `Foo#bar` becomes `Foobar` |
| LinkRewriting.ResolveLinks | Java2SharpDoc/Services/DocConverter.cs:227-253 | the result is resolved (no marker, or no `}` after the first marker); input without marker comes back unchanged; non-empty stays non-empty; never more `}` |
| LinkRewriting.ResolvedIsFixed | Java2SharpDoc/Services/DocConverter.cs:232-241 | a resolved string is returned unchanged by both rewritings |
| LinkRewriting.ResolveStep | Java2SharpDoc/Services/DocConverter.cs:243-249 | one iteration (first link rewritten with `#` removed) keeps the final result and lowers the `}` count |
| LinkRewriting.ResolveLinksIdempotent | Java2SharpDoc/Services/DocConverter.cs:227-253 | a second pass finds nothing to rewrite |
| LinkRewriting.ReplaceLinks | Java2SharpDoc/Services/DocConverter.cs:227-253 | the do-while loop returns `ResolveLinks(input)` |
| LinkRewriting.LegacyResolveLinks | Java2SharpDoc/Services/Converter.cs:213-234 | input without marker comes back unchanged; non-empty stays non-empty |
| LinkRewriting.LegacyResolvesEveryMarker | Java2SharpDoc/Services/Converter.cs:213-234 | where every marker has its `}`, no marker survives the legacy rewriting |
| LinkRewriting.LegacyStep | Java2SharpDoc/Services/Converter.cs:223-230 | on a closed string the `}` exists after the marker; one iteration keeps it closed, keeps the final result and lowers the `}` count |
| LinkRewriting.LegacyReplaceLinks | Java2SharpDoc/Services/Converter.cs:213-234 | requires a `}` after every marker met; the loop returns `LegacyResolveLinks(input)` |
| LinkRewriting.EnginesAgreeWithoutHash | Java2SharpDoc/Services/Converter.cs:213-234 | on text without `#` both rewritings give the same result |
| Segmentation.Normalize | Java2SharpDoc/Services/DocConverter.cs:79 | a normalized line holds no `*` |
| Segmentation.NormalizeIsTrimWithout | Java2SharpDoc/Services/DocConverter.cs:79 | the normalized line is the line with every `*` dropped and its other characters kept in order (`Without`), then trimmed |
| Segmentation.Texts | Java2SharpDoc/Services/DocConverter.cs:110 | one normalized text per line, in order |
| Segmentation.TagFlags | Java2SharpDoc/Services/DocConverter.cs:81-83 | flag `i` is set iff line `i` starts with one of the five tags once normalized |
| Segmentation.Boundaries | Java2SharpDoc/Services/DocConverter.cs:77-90 | the segment starts: 0 first, strictly increasing, every later one a tag line, and every tag line past 0 among them |
| Segmentation.ScanStateNext | Java2SharpDoc/Services/DocConverter.cs:85-89 | a tag line past the open segment's start closes `(start, i)` and opens at `i`; any other line changes nothing |
| Segmentation.ScanStateBoundaries | Java2SharpDoc/Services/DocConverter.cs:77-91 | after `i` lines the loop holds the pairs between the boundaries seen so far and the last boundary as `start` |
| Segmentation.SegmentsAreBoundaryPairs | Java2SharpDoc/Services/DocConverter.cs:70-98 | the segments of the scan are the consecutive boundary pairs plus the last one closed at the last line |
| Segmentation.Segments | Java2SharpDoc/Services/DocConverter.cs:70-98 | what the scan returns: its closed pairs, then the open segment closed at the last line (no contract; see `SegmentsAreBoundaryPairs` and `SegmentsCover`) |
| Segmentation.SegmentAt | Java2SharpDoc/Services/DocConverter.cs:85-96 | segment `j` runs from boundary `j` to boundary `j+1`, the last to `lines.Length - 1` |
| Segmentation.SegmentsCover | Java2SharpDoc/Services/DocConverter.cs:70-98 | no lines iff no segments; the first starts at 0, the last ends at `lines.Length - 1`; each is in range; consecutive segments share their boundary, with `start < end` before it |
| Segmentation.SegmentUnflagged | Java2SharpDoc/Services/DocConverter.cs:81-89 | no tag line lies strictly inside segment `j` |
| Segmentation.SegmentsEndOnTagLines | Java2SharpDoc/Services/DocConverter.cs:81-89 | every segment but the last ends on the tag line that starts the next |
| Segmentation.SegmentsHoldNoInnerTagLine | Java2SharpDoc/Services/DocConverter.cs:81-95 | no tag line lies strictly inside a segment; a tag line at the end is the last segment's start, so it is never a continuation |
| SegmentConversion.Links | Java2SharpDoc/Services/Converter.cs:213-234 | the engine's rewriting keeps non-empty text non-empty and marker-free text unchanged |
| SegmentConversion.BlankMeansEmpty | Java2SharpDoc/Services/DocConverter.cs:110-111 | a normalized line is blank iff it is empty |
| SegmentConversion.AddLine | Java2SharpDoc/Services/DocConverter.cs:198-209 | `""`, or, for an existing non-empty line, newline + `"/// "` + its normalized text; never `""` for an existing non-blank line |
| SegmentConversion.JoinLine | Java2SharpDoc/Services/DocConverter.cs:211-222 | `""`, or, for an existing non-empty line, one space + its normalized text; never `""` for an existing non-blank line |
| SegmentConversion.ContinuationEmptyIffBlank | Java2SharpDoc/Services/DocConverter.cs:198-222 | `AddLine` and `JoinLine` give `""` exactly when the index is past the end or the line is blank, so every existing non-blank continuation line is added |
| SegmentConversion.AddLineMatchesJoinLine | Java2SharpDoc/Services/Converter.cs:187-211 | both skip the same lines, and an added line is newline + `///` + the joined one |
| SegmentConversion.BlankRangeAddsNothing | Java2SharpDoc/Services/DocConverter.cs:205-206 | blank continuation lines contribute nothing |
| SegmentConversion.AppendAddedLines | Java2SharpDoc/Services/DocConverter.cs:125-128 | the `for` loop appends `AddedLines` over `start+1..end` |
| SegmentConversion.AppendJoinedLines | Java2SharpDoc/Services/DocConverter.cs:168-171 | the `for` loop appends `JoinedLines` over `start+1..end` |
| SegmentConversion.ContinuationsReadRange | Java2SharpDoc/Services/DocConverter.cs:125-128 | continuation text depends only on the lines in the loop's range |
| SegmentConversion.ContinuationReadsOne | Java2SharpDoc/Services/DocConverter.cs:198-222 | `AddLine(i)`/`JoinLine(i)` read only line `i` |
| SegmentConversion.SegmentIgnoresEndLine | Java2SharpDoc/Services/DocConverter.cs:125-181 | the loops stop before `endIndex`: changing the end line never changes a segment's piece, so the last line of the comment is dropped unless a segment starts on it |
| SegmentConversion.SplitNextWord | Java2SharpDoc/Services/DocConverter.cs:258-266 | requires a space; the first part holds none and `first + " " + rest == input` |
| SegmentConversion.AfterTag | Java2SharpDoc/Services/DocConverter.cs:120 | the text after the tag with leading whitespace removed: a suffix of the line past the tag, starting with non-whitespace |
| SegmentConversion.Message | Java2SharpDoc/Services/DocConverter.cs:163-175 | a message is stored exactly for a `@deprecated` segment |
| SegmentConversion.RenderSummary | Java2SharpDoc/Services/DocConverter.cs:185-194 | a non-empty summary text renders as the three lines `/// <summary>`, `/// ` + text with links rewritten, `/// </summary>` |
| SegmentConversion.EmptyResults | Java2SharpDoc/Services/DocConverter.cs:103-114 | a segment yields `""` iff its start is past the end, its start line is blank, or it is a deprecation; otherwise its line starts with `/// ` |
| SegmentConversion.RenderedLine | Java2SharpDoc/Services/DocConverter.cs:116-195 | every non-blank, non-deprecation piece (a summary with text) renders as a non-empty `///` line |
| SegmentConversion.SummaryThreeLines | Java2SharpDoc/Services/DocConverter.cs:176-195 | a summary segment always takes the three-line form: the empty-content branch cannot be reached |
| SegmentConversion.ParamLine | Java2SharpDoc/Services/DocConverter.cs:131 | `/// <param name="N">D</param>` |
| SegmentConversion.ExceptionLine | Java2SharpDoc/Services/DocConverter.cs:146 | `/// <exception cref="N">D</exception>` |
| SegmentConversion.ReturnsLine | Java2SharpDoc/Services/DocConverter.cs:155 | `/// <returns>D</returns>` |
| SegmentConversion.TagStart | Java2SharpDoc/Services/DocConverter.cs:118-163 | a line starting with a tag is not blank, and the tag it starts with fixes the tag's second letter, so the branches are told apart |
| SegmentConversion.Parse | Java2SharpDoc/Services/DocConverter.cs:103-183 | the piece of one segment (no contract; see the `Parse…` lemmas below) |
| SegmentConversion.ParseParam | Java2SharpDoc/Services/DocConverter.cs:118-128 | a `@param` segment holds the first word and the rest plus the continuation lines |
| SegmentConversion.ParseThrows | Java2SharpDoc/Services/DocConverter.cs:133-143 | a `@throws` segment holds the first word and the rest plus the continuation lines |
| SegmentConversion.ParseReturns | Java2SharpDoc/Services/DocConverter.cs:148-153 | a `@return` segment holds the text after its first word only |
| SegmentConversion.ParseSee | Java2SharpDoc/Services/DocConverter.cs:157-161 | a `@see` segment holds the rest of its line |
| SegmentConversion.ParseSummary | Java2SharpDoc/Services/DocConverter.cs:175-181 | a segment whose first line is neither blank nor a tag line is a summary: that line plus its `AddLine` continuations |
| SegmentConversion.ParseDeprecated | Java2SharpDoc/Services/DocConverter.cs:163-171 | a `@deprecated` segment holds the rest of its line plus the space-joined continuation lines |
| SegmentConversion.DeprecatedRendersNothing | Java2SharpDoc/Services/DocConverter.cs:174 | a deprecation yields `""` |
| SegmentConversion.Render | Java2SharpDoc/Services/DocConverter.cs:116-195 | the line of one piece (no contract; see `EmptyResults`, `RenderedLine` and the `…Shape` lemmas) |
| SegmentConversion.MessageOf | Java2SharpDoc/Services/DocConverter.cs:172 | newlines removed, then links rewritten (no contract; see `DeprecatedContributesNoLine`) |
| SegmentConversion.ParamShape | Java2SharpDoc/Services/DocConverter.cs:118-132 | the `@param` line is `/// <param name="N">D</param>` with N the first word and D the rest plus continuations, links rewritten |
| SegmentConversion.ThrowsShape | Java2SharpDoc/Services/DocConverter.cs:133-147 | the `@throws` line is `/// <exception cref="N">D</exception>` likewise |
| SegmentConversion.ReturnIgnoresContinuation | Java2SharpDoc/Services/DocConverter.cs:148-156 | a `@return` piece equals that of its first line alone, drops one first word and renders `/// <returns>D</returns>` |
| SegmentConversion.DeprecatedContributesNoLine | Java2SharpDoc/Services/DocConverter.cs:163-175 | a message is stored iff the segment is `@deprecated`; then the line is `""` and the message is the text plus space-joined continuations, newlines removed, links rewritten |
| SegmentConversion.EnginesRenderAlike | Java2SharpDoc/Services/Converter.cs:213-234 | without `#` both engines give a piece the same line and message |
| SegmentConversion.Pieces | Java2SharpDoc/Services/DocConverter.cs:49-51 | one piece per segment, each the parse of that segment |
| SegmentConversion.Outputs | Java2SharpDoc/Services/DocConverter.cs:49-51 | one result per piece, in order |
| SegmentConversion.OutputsAgreeWithoutHash | Java2SharpDoc/Services/Converter.cs:51-54 | without `#`, both engines' segment results are equal |
| SegmentConversion.LastDeprecation | Java2SharpDoc/Services/DocConverter.cs:172 | none iff no deprecation; otherwise the text of the last deprecated piece |
| SegmentConversion.LastMessage | Java2SharpDoc/Services/DocConverter.cs:172 | none iff no deprecation; otherwise the message of the last deprecated piece, since later ones overwrite the field |
| SegmentConversion.ConversionStep | Java2SharpDoc/Services/DocConverter.cs:49-56 | one more segment appends its non-empty line and replaces the message for a deprecation |
| SegmentConversion.Converted | Java2SharpDoc/Services/DocConverter.cs:48-56 | the `foreach` loop as a step function (no contract; see `ConvertedNext` and `ConvertedIsOutputsAndMessage`) |
| SegmentConversion.ConvertedNext | Java2SharpDoc/Services/DocConverter.cs:49-56 | one iteration of the `foreach` loop keeps the segment's line when it is non-empty and replaces the message for a deprecation |
| SegmentConversion.ConvertedIsOutputsAndMessage | Java2SharpDoc/Services/DocConverter.cs:48-56 | the loop's result is the non-empty outputs in order with the last deprecation's message |
| SegmentConversion.ApplyLinks | Java2SharpDoc/Services/DocConverter.cs:227-253 | runs the engine's `ReplaceLinks` loop and returns `Links(engine, input)` |
| SegmentConversion.ConvertParam | Java2SharpDoc/Services/DocConverter.cs:118-132 | the `@param` branch returns the rendered parse of the segment |
| SegmentConversion.ConvertThrows | Java2SharpDoc/Services/DocConverter.cs:133-147 | the `@throws` branch returns the rendered parse of the segment |
| SegmentConversion.ConvertReturn | Java2SharpDoc/Services/DocConverter.cs:148-156 | the `@return` branch returns the rendered parse of the segment |
| SegmentConversion.ConvertSee | Java2SharpDoc/Services/DocConverter.cs:157-162 | the `@see` branch returns the rendered parse of the segment |
| SegmentConversion.ConvertDeprecated | Java2SharpDoc/Services/DocConverter.cs:163-175 | the `@deprecated` branch yields no line and returns the message the segment stores |
| SegmentConversion.ConvertSummary | Java2SharpDoc/Services/DocConverter.cs:176-195 | any other non-blank line opens a summary, returned rendered |
| DocConversion.Body | Java2SharpDoc/Services/DocConverter.cs:44 | every `/**` is removed, then every `*/` (no contract; see `PlainCommentBody`) |
| DocConversion.BodyLines | Java2SharpDoc/Services/DocConverter.cs:44-45 | the stored lines are all non-empty and none holds a newline |
| DocConversion.BodyLinesRejoin | Java2SharpDoc/Services/DocConverter.cs:44-45 | the lines are the non-empty ones among the parts of the body split at newlines, and those parts joined by newlines give back the body |
| DocConversion.PlainCommentBody | Java2SharpDoc/Services/DocConverter.cs:44 | for a text without `*`, the body of `/**` + text + `*/` is exactly that text |
| DocConversion.BodyPieces | Java2SharpDoc/Services/DocConverter.cs:46-51 | one piece per segment |
| DocConversion.ObsoleteAttribute | Java2SharpDoc/Services/DocConverter.cs:59 | `""` iff no message; otherwise starts `[System.Obsolete("` |
| DocConversion.Assembled | Java2SharpDoc/Services/DocConverter.cs:58-64 | the attribute is `""` iff no segment is deprecated, and starts with a newline iff both documentation and attribute are non-empty |
| DocConversion.AcceptedConversion | Java2SharpDoc/Services/DocConverter.cs:43-64 | an accepted input converts to the pair assembled from its pieces |
| DocConversion.Accepts | Java2SharpDoc/Services/DocConverter.cs:38 | the delimiter test (no contract; see `LegacyAcceptsIffAccepts`) |
| DocConversion.Convertible | Java2SharpDoc/Services/DocConverter.cs:122 | in an accepted input, every `@param`, `@throws` or `@return` line that starts a segment has a space after the word following the tag, so `@param x` with no description is excluded because the source throws on it (no contract) |
| DocConversion.Conversion | Java2SharpDoc/Services/DocConverter.cs:36-65 | `("", "")` on rejection, the assembled pair otherwise (no contract; see `AcceptedConversion` and `DocConverter.Convert`) |
| DocConversion.DocConverter.Convert | Java2SharpDoc/Services/DocConverter.cs:36-65 | returns `Conversion(input)`; a rejected input gives `("", "")` with the fields untouched; an accepted one stores the body lines and the last deprecation message |
| DocConversion.DocConverter.ConvertSegments | Java2SharpDoc/Services/DocConverter.cs:48-56 | the `foreach` loop collects the non-empty lines and leaves the last deprecation's message in the field |
| DocConversion.DocConverter.FindSegments | Java2SharpDoc/Services/DocConverter.cs:70-98 | returns `Segments(lines)` |
| DocConversion.DocConverter.ConvertSegment | Java2SharpDoc/Services/DocConverter.cs:103-196 | returns the rendered parse and sets the message exactly for a deprecation |
| LegacyConversion.LegacyAcceptsIffAccepts | Java2SharpDoc/Services/Converter.cs:39-43 | trimming both ends and testing accepts exactly the inputs the current engine accepts |
| LegacyConversion.LegacyAccepts | Java2SharpDoc/Services/Converter.cs:39-40 | the delimiter test on the trimmed input (no contract; see `LegacyAcceptsIffAccepts`) |
| LegacyConversion.LegacyConverted | Java2SharpDoc/Services/Converter.cs:50-54 | the legacy loop as a step function (no contract; see `LegacyConvertedNext` and `LegacyConvertedIsOutputsAndMessage`) |
| LegacyConversion.LegacyEntries | Java2SharpDoc/Services/Converter.cs:50-58 | one entry per segment, deprecations included as `""`, then `[Obsolete("msg")]` exactly when a deprecation was seen |
| LegacyConversion.LegacyResult | Java2SharpDoc/Services/Converter.cs:37-60 | `None` (the source's `null`) exactly when the current converter's delimiter test rejects the input, so both engines reject the same inputs |
| LegacyConversion.LegacyConvertedIsOutputsAndMessage | Java2SharpDoc/Services/Converter.cs:50-54 | the loop keeps every segment result in order and ends with the last deprecation's message |
| LegacyConversion.LegacyConvertedNext | Java2SharpDoc/Services/Converter.cs:51-54 | one iteration of the legacy loop keeps the chunk's line, empty or not, and replaces the message for a deprecation |
| LegacyConversion.LoopGivesEntries | Java2SharpDoc/Services/Converter.cs:50-58 | the loop's lines followed by the attribute for its final message are the legacy entries |
| LegacyConversion.LegacyAcceptedConversion | Java2SharpDoc/Services/Converter.cs:45-59 | an accepted input converts to its entries joined by newlines |
| LegacyConversion.LegacyAttributeIsLastLine | Java2SharpDoc/Services/Converter.cs:55-59 | after a deprecation, `[Obsolete("msg")]` is the last newline-separated line of the result |
| LegacyConversion.EnginesAgreeOnPieces | Java2SharpDoc/Services/Converter.cs:49-59 | where every segment yields a line and no text holds `#`, the legacy string is the current documentation and the current attribute is empty |
| LegacyConversion.EnginesAgreeOnAccepted | Java2SharpDoc/Services/Converter.cs:37-60 | on an accepted, already trimmed input with such segments, the legacy string is the current documentation and the current attribute is empty |
| LegacyConversion.Converter.Convert | Java2SharpDoc/Services/Converter.cs:37-60 | returns `LegacyResult(input)`; fields untouched on rejection; the trimmed body lines and last message stored otherwise |
| LegacyConversion.Converter.ConvertLines | Java2SharpDoc/Services/Converter.cs:48-58 | on the stored lines, collects every chunk result and then the `[Obsolete("msg")]` entry, leaving the last deprecation's message in the field |
| LegacyConversion.Converter.ConvertChunks | Java2SharpDoc/Services/Converter.cs:50-54 | keeps every chunk result, empty ones included, and the last deprecation's message |
| LegacyConversion.Converter.FindChunks | Java2SharpDoc/Services/Converter.cs:62-90 | returns `Segments(lines)`, the same segmentation as `FindSegments` |
| LegacyConversion.Converter.ConvertChunk | Java2SharpDoc/Services/Converter.cs:92-185 | returns the rendered parse with the legacy link rewriting and sets the message exactly for a deprecation |

## Left out

- The WPF window, the view model and the syntax highlighter: they hold no conversion logic.
- `Environment.NewLine` is the fixed string `"\r\n"`. `Trim` removes a fixed set of six whitespace characters rather than every Unicode white space. `StartsWith`, `EndsWith` and `IndexOf` compare ordinally, including the culture-sensitive `EndsWith` calls (DocConverter.cs:38, Converter.cs:40, TagHelper.cs:32).
- Runtime exceptions become preconditions.
  - `SplitNextWord` without a space: `WellFormed` / `TextWellFormed` require that every `@param`, `@throws` or `@return` line that starts a segment has a space after the word following the tag. So `@param x` with no description is excluded: the source throws on it.
  - The legacy `ReplaceLinks` meeting a marker with no later `}`: `LegacyClosed` / `LinksClosed` / `LegacyConvertible` require every marker met to have its `}`.
- Null inputs are not modelled; every string is a value.
- The tag branches of `ConvertSegment` and `Convert(start, end)` are separate methods shared by both engines (`ConvertParam` … `ConvertSummary`). The `foreach` loops over segments are the methods `ConvertSegments` and `ConvertChunks`. The legacy `Convert` hands its work after storing the lines to `ConvertLines`. They hold the branches' statements, in the source's order, over lines normalized once (`Texts`), where the source runs `Replace("*", "").Trim()` on each line as it reads it. `ConvertSegment` also takes the segment's piece as a ghost parameter, which the source does not have.
- LegacyConversion.EnginesAgreeOnAccepted: it is stated only for inputs already trimmed. Otherwise the current engine keeps the whitespace around the delimiters as body text and the legacy engine does not, so their line lists differ.
- Instance fields are not shared between threads: each `Convert` call runs alone.
