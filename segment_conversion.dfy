/**
 * The conversion of one segment, which both converters perform in the same
 * way apart from link rewriting: `AddLine`, `JoinLine`, `SplitNextWord` and
 * the branches of `ConvertSegment` (legacy: `Convert(start, end)`).
 *
 * `Parse` reads a segment into a `Piece` (which tag it carries and its raw
 * text); `Render` and `Message` give the line and the deprecation message
 * the converter produces for it.
 */
module SegmentConversion {
  import opened Wrappers
  import opened Text
  import opened DocHelper
  import opened LinkRewriting
  import opened Segmentation

  /** Which converter's link rewriting is in use. */
  datatype Engine = Current | Legacy

  /** `ReplaceLinks` of the converter in use. */
  function Links(engine: Engine, s: string): (r: string)
    ensures s != "" ==> r != ""
    ensures FirstMarker(s) == -1 ==> r == s
  {
    if engine == Current then ResolveLinks(s) else LegacyResolveLinks(s)
  }

  /** A normalized line is blank exactly when it is empty. */
  lemma BlankMeansEmpty(line: string)
    ensures IsBlank(Normalize(line)) <==> Normalize(line) == ""
  {
    var r := Normalize(line);
    if r != "" {
      assert !IsWhiteSpace(r[|r| - 1]);
    }
  }

  /**
   * `AddLine(index)` over the normalized lines `texts`: a non-blank line
   * continues the element on a line of its own; a blank or missing line adds
   * nothing.
   */
  function AddLine(texts: seq<string>, index: nat): (r: string)
    ensures r == "" || (index < |texts| && texts[index] != "" && r == NewLine + "/// " + texts[index])
    ensures index < |texts| && !IsBlank(texts[index]) ==> r != ""
  {
    if index >= |texts| || IsBlank(texts[index]) then "" else NewLine + "/// " + texts[index]
  }

  /** `JoinLine(index)`: a non-blank line continues the text after one space. */
  function JoinLine(texts: seq<string>, index: nat): (r: string)
    ensures r == "" || (index < |texts| && texts[index] != "" && r == " " + texts[index])
    ensures index < |texts| && !IsBlank(texts[index]) ==> r != ""
  {
    if index >= |texts| || IsBlank(texts[index]) then "" else " " + texts[index]
  }

  /** A continuation adds nothing exactly for a missing or blank line: no other line is dropped. */
  lemma ContinuationEmptyIffBlank(texts: seq<string>, index: nat)
    ensures AddLine(texts, index) == "" <==> index >= |texts| || IsBlank(texts[index])
    ensures JoinLine(texts, index) == "" <==> index >= |texts| || IsBlank(texts[index])
  {
  }

  /**
   * The two continuations take the same lines, and the same text: `AddLine`
   * puts on a new `///` line what `JoinLine` puts after a space.
   */
  lemma AddLineMatchesJoinLine(texts: seq<string>, index: nat)
    ensures AddLine(texts, index) == "" <==> JoinLine(texts, index) == ""
    ensures AddLine(texts, index) != "" ==> AddLine(texts, index) == NewLine + "///" + JoinLine(texts, index)
  {
  }

  /** The `for` loop of `AddLine` calls over `lo..hi`; nothing when `hi <= lo`. */
  function AddedLines(texts: seq<string>, lo: nat, hi: nat): (r: string)
    decreases hi
  {
    if hi <= lo then "" else AddedLines(texts, lo, hi - 1) + AddLine(texts, hi - 1)
  }

  /** The `for` loop of `JoinLine` calls over `lo..hi`; nothing when `hi <= lo`. */
  function JoinedLines(texts: seq<string>, lo: nat, hi: nat): (r: string)
    decreases hi
  {
    if hi <= lo then "" else JoinedLines(texts, lo, hi - 1) + JoinLine(texts, hi - 1)
  }

  /** Blank lines are skipped: a range of blank lines adds nothing, either way. */
  lemma {:induction false} BlankRangeAddsNothing(texts: seq<string>, lo: nat, hi: nat)
    requires forall i :: lo <= i < hi && i < |texts| ==> IsBlank(texts[i])
    ensures AddedLines(texts, lo, hi) == "" && JoinedLines(texts, lo, hi) == ""
    decreases hi
  {
    if hi > lo {
      BlankRangeAddsNothing(texts, lo, hi - 1);
    }
  }

  /** Appends `AddLine(i)` for `i` from `from` up to `to`, as the `for` loops do. */
  method AppendAddedLines(texts: seq<string>, output: string, from: nat, to: nat) returns (r: string)
    ensures r == output + AddedLines(texts, from, to)
  {
    r := output;
    var i := from;
    while i < to
      invariant from <= i && (i <= to || i == from)
      invariant r == output + AddedLines(texts, from, i)
    {
      var next := AddLine(texts, i);
      ConcatAssoc(output, AddedLines(texts, from, i), next);
      r := r + next;
      i := i + 1;
    }
  }

  /** Appends `JoinLine(i)` for `i` from `from` up to `to`, as the `@deprecated` loop does. */
  method AppendJoinedLines(texts: seq<string>, output: string, from: nat, to: nat) returns (r: string)
    ensures r == output + JoinedLines(texts, from, to)
  {
    r := output;
    var i := from;
    while i < to
      invariant from <= i && (i <= to || i == from)
      invariant r == output + JoinedLines(texts, from, i)
    {
      var next := JoinLine(texts, i);
      ConcatAssoc(output, JoinedLines(texts, from, i), next);
      r := r + next;
      i := i + 1;
    }
  }

  /**
   * `SplitNextWord`: the text before the first space and the text after it.
   * The source calls `Substring(0, -1)` when there is no space, which throws.
   */
  function SplitNextWord(input: string): (r: (string, string))
    requires ' ' in input
    ensures ' ' !in r.0
    ensures r.0 + " " + r.1 == input
  {
    var k := IndexOf(input, " ", 0);
    FirstIndexOfChar(input, ' ', k);
    assert input == input[..k] + [input[k]] + input[k + 1..];
    (input[..k], input[k + 1..])
  }

  /** The text after a tag, as `Remove(0, tag.Length).TrimStart()` leaves it. */
  function AfterTag(text: string, tag: string): (r: string)
    requires StartsWith(text, tag)
    ensures r == [] || !IsWhiteSpace(r[0])
    ensures |r| + |tag| <= |text| && r == text[|text| - |r|..]
  {
    TrimStart(text[|tag|..])
  }


  /**
   * A normalized line the converters can handle when it starts a segment: a
   * `@param`, `@throws` or `@return` line needs a space after its first word,
   * since `SplitNextWord` throws otherwise.  The tests run in the source's
   * order.
   */
  predicate TextWellFormed(text: string) {
    if StartsWith(text, ParamTag) then ' ' in AfterTag(text, ParamTag)
    else if StartsWith(text, ThrowsTag) then ' ' in AfterTag(text, ThrowsTag)
    else if StartsWith(text, ReturnTag) then ' ' in AfterTag(text, ReturnTag)
    else true
  }

  /**
   * Every line is well formed.  Lines that are not tag lines are so
   * trivially, and every tag line starts a segment, so this is what
   * conversion needs.
   */
  predicate WellFormed(texts: seq<string>) {
    forall i :: 0 <= i < |texts| ==> TextWellFormed(texts[i])
  }

  /** What a segment holds, with its text as the converter assembles it before rewriting links. */
  datatype Piece =
    | Blank                               // start index past the end, or a blank start line
    | Param(name: string, text: string)
    | Throws(name: string, text: string)
    | Returns(text: string)
    | SeeAlso(cref: string)
    | Deprecated(text: string)
    | Summary(text: string)

  /** What `ConvertSegment(startIndex, endIndex)` reads: nothing past the last line, else the piece of its start line. */
  function Parse(texts: seq<string>, s: nat, e: nat): (p: Piece)
    requires s < |texts| ==> TextWellFormed(texts[s])
  {
    if s >= |texts| then Blank
    else ParseText(texts[s], AddedLines(texts, s + 1, e), JoinedLines(texts, s + 1, e))
  }

  /**
   * The branches of `ConvertSegment`, in the order the source tries them:
   * the piece for a start line `text`, given what its continuation lines
   * add (`added`, through `AddLine`) or join (`joined`, through `JoinLine`).
   */
  function ParseText(text: string, added: string, joined: string): (p: Piece)
    requires TextWellFormed(text)
  {
    if IsBlank(text) then Blank
    else if StartsWith(text, ParamTag) then
      var (name, content) := SplitNextWord(AfterTag(text, ParamTag));
      Param(name, content + added)
    else if StartsWith(text, ThrowsTag) then
      var (name, content) := SplitNextWord(AfterTag(text, ThrowsTag));
      Throws(name, content + added)
    else if StartsWith(text, ReturnTag) then
      Returns(SplitNextWord(AfterTag(text, ReturnTag)).1)
    else if StartsWith(text, SeeTag) then
      SeeAlso(AfterTag(text, SeeTag))
    else if StartsWith(text, DeprecatedTag) then
      Deprecated(AfterTag(text, DeprecatedTag) + joined)
    else
      Summary(text + added)
  }

  /** The line `ConvertSegment` returns for a piece. */
  function Render(engine: Engine, p: Piece): (r: string)
  {
    match p
    case Blank => ""
    case Param(name, text) => "/// " + CreateTagWithVarAndContent("param", "name", name, Links(engine, text))
    case Throws(name, text) => "/// " + CreateTagWithVarAndContent("exception", "cref", name, Links(engine, text))
    case Returns(text) => "/// " + CreateTag("returns", Links(engine, text))
    case SeeAlso(cref) => "/// " + CreateTagWithVar("seealso", "cref", cref)
    case Deprecated(_) => ""
    case Summary(text) =>
      var output := Links(engine, text);
      if |output| == 0 then CreateTag("summary", output)
      else "/// " + CreateStartTag("summary") + NewLine + "/// " + output + NewLine + "/// " + CreateEndTag("summary")
  }

  /** The deprecation message made from a `@deprecated` text: newlines removed, links rewritten. */
  function MessageOf(engine: Engine, text: string): (message: string)
  {
    Links(engine, Replace(text, NewLine, ""))
  }

  /** The message a piece stores in `obsoleteMessage`, if any. */
  function Message(engine: Engine, p: Piece): (m: Option<string>)
    ensures m.Some? <==> p.Deprecated?
  {
    if p.Deprecated? then Some(MessageOf(engine, p.text)) else None
  }

  /** The three lines of a summary element around its text. */
  lemma SummaryLines(output: string)
    ensures "/// " + CreateStartTag("summary") + NewLine + "/// " + output + NewLine + "/// " + CreateEndTag("summary") ==
            "/// <summary>" + NewLine + "/// " + output + NewLine + "/// </summary>"
  {
    assert "/// " + CreateStartTag("summary") == "/// <summary>";
    ConcatAssoc("/// <summary>" + NewLine + "/// " + output + NewLine, "/// ", CreateEndTag("summary"));
  }

  /** A summary piece with a non-empty text renders as three lines. */
  lemma RenderSummary(engine: Engine, text: string)
    requires text != ""
    ensures Links(engine, text) != ""
    ensures Render(engine, Summary(text)) ==
              "/// <summary>" + NewLine + "/// " + Links(engine, text) + NewLine + "/// </summary>"
  {
    SummaryLines(Links(engine, text));
  }

  /**
   * `ConvertSegment` returns `""` exactly for a start past the end, a blank
   * start line and a deprecation; every other piece yields a `///` line.
   */
  lemma EmptyResults(engine: Engine, texts: seq<string>, s: nat, e: nat)
    requires s < |texts| ==> TextWellFormed(texts[s])
    ensures Render(engine, Parse(texts, s, e)) == "" <==>
              s >= |texts| || IsBlank(texts[s]) || Parse(texts, s, e).Deprecated?
    ensures Render(engine, Parse(texts, s, e)) != "" ==> StartsWith(Render(engine, Parse(texts, s, e)), "/// ")
  {
    var p := Parse(texts, s, e);
    assert p.Blank? <==> s >= |texts| || IsBlank(texts[s]);
    if p.Summary? {
      assert p.text != "";
    }
    if !p.Blank? && !p.Deprecated? {
      RenderedLine(engine, p);
    }
  }

  /** Every piece but a blank one, a deprecation and an empty summary renders as a `///` line. */
  lemma RenderedLine(engine: Engine, p: Piece)
    requires !p.Blank? && !p.Deprecated? && (p.Summary? ==> p.text != "")
    ensures Render(engine, p) != "" && StartsWith(Render(engine, p), "/// ")
  {
    var slashes := "/// ";
    assert StartsWith(slashes, slashes);
    match p
    case Param(name, text) =>
      StartsWithAppend(slashes, CreateTagWithVarAndContent("param", "name", name, Links(engine, text)), slashes);
    case Throws(name, text) =>
      StartsWithAppend(slashes, CreateTagWithVarAndContent("exception", "cref", name, Links(engine, text)), slashes);
    case Returns(text) =>
      StartsWithAppend(slashes, CreateTag("returns", Links(engine, text)), slashes);
    case SeeAlso(cref) =>
      StartsWithAppend(slashes, CreateTagWithVar("seealso", "cref", cref), slashes);
    case Summary(text) =>
      var output := Links(engine, text);
      RenderSummary(engine, text);
      var first := "/// <summary>";
      assert StartsWith(first, slashes);
      StartsWithAppend(first, NewLine, slashes);
      StartsWithAppend(first + NewLine, slashes, slashes);
      StartsWithAppend(first + NewLine + slashes, output, slashes);
      StartsWithAppend(first + NewLine + slashes + output, NewLine, slashes);
      StartsWithAppend(first + NewLine + slashes + output + NewLine, "/// </summary>", slashes);
  }

  /**
   * A summary always takes the three-line form: the start line is not blank
   * and rewriting links never empties a text, so the branch for an empty
   * summary cannot be taken.
   */
  lemma SummaryThreeLines(engine: Engine, texts: seq<string>, s: nat, e: nat)
    requires s < |texts| ==> TextWellFormed(texts[s])
    requires Parse(texts, s, e).Summary?
    ensures Links(engine, Parse(texts, s, e).text) != ""
    ensures Render(engine, Parse(texts, s, e)) ==
              "/// <summary>" + NewLine + "/// " + Links(engine, Parse(texts, s, e).text) + NewLine + "/// </summary>"
  {
    assert Parse(texts, s, e).text != "";
    RenderSummary(engine, Parse(texts, s, e).text);
  }

  /** The line of an element with a `name` or `cref` attribute around its text. */
  lemma AttributeElementLine(tag: string, attribute: string, name: string, output: string)
    ensures "/// " + CreateTagWithVarAndContent(tag, attribute, name, output) ==
              ("/// " + AttributeOpening(tag, attribute)) + name + "\">" + output + CreateEndTag(tag)
  {
    var opening, end := AttributeOpening(tag, attribute), CreateEndTag(tag);
    var x := opening + name + "\">" + output;
    assert opening == "<" + tag + " " + attribute + "=\"";
    ConcatAssoc(x + "</", tag, ">");
    ConcatAssoc(x, "</", tag + ">");
    ConcatAssoc("</", tag, ">");
    assert CreateTagWithVarAndContent(tag, attribute, name, output) == x + end;
    ConcatAssoc("/// ", x, end);
    ConcatAssoc("/// ", opening + name + "\">", output);
    ConcatAssoc("/// ", opening + name, "\">");
    ConcatAssoc("/// ", opening, name);
  }

  /** The line of an element around its text. */
  lemma ElementLine(prefix: string, tag: string, output: string)
    ensures prefix + CreateTag(tag, output) == (prefix + CreateStartTag(tag)) + output + CreateEndTag(tag)
  {
    var start, end := CreateStartTag(tag), CreateEndTag(tag);
    var x := start + output;
    ConcatAssoc(x + "</", tag, ">");
    ConcatAssoc(x, "</", tag + ">");
    ConcatAssoc("</", tag, ">");
    assert CreateTag(tag, output) == x + end;
    ConcatAssoc(prefix, x, end);
    ConcatAssoc(prefix, start, output);
  }

  /** The line of a `@param` piece. */
  lemma ParamLine(name: string, output: string)
    ensures "/// " + CreateTagWithVarAndContent("param", "name", name, output) ==
              "/// <param name=\"" + name + "\">" + output + "</param>"
  {
    AttributeElementLine("param", "name", name, output);
    ParamSpelling();
  }

  /** The fixed parts of a `@param` line. */
  lemma ParamSpelling()
    ensures "/// " + AttributeOpening("param", "name") == "/// <param name=\""
    ensures CreateEndTag("param") == "</param>"
  {
  }

  /** The line of a `@throws` piece. */
  lemma ExceptionLine(name: string, output: string)
    ensures "/// " + CreateTagWithVarAndContent("exception", "cref", name, output) ==
              "/// <exception cref=\"" + name + "\">" + output + "</exception>"
  {
    AttributeElementLine("exception", "cref", name, output);
    ExceptionSpelling();
  }

  /** The fixed parts of a `@throws` line. */
  lemma ExceptionSpelling()
    ensures "/// " + AttributeOpening("exception", "cref") == "/// <exception cref=\""
    ensures CreateEndTag("exception") == "</exception>"
  {
  }

  /** The line of a `@return` piece. */
  lemma ReturnsLine(output: string)
    ensures "/// " + CreateTag("returns", output) == "/// <returns>" + output + "</returns>"
  {
    ElementLine("/// ", "returns", output);
    ReturnsSpelling();
  }

  /** The fixed parts of a `@return` line. */
  lemma ReturnsSpelling()
    ensures "/// " + CreateStartTag("returns") == "/// <returns>"
    ensures CreateEndTag("returns") == "</returns>"
  {
  }

  /**
   * A line starting with a tag is not blank, and starts with no other tag
   * unless the two share their second character.
   */
  lemma TagStart(text: string, tag: string)
    requires StartsWith(text, tag) && |tag| >= 2 && tag[0] == '@'
    ensures !IsBlank(text)
    ensures StartsWith(text, ParamTag) ==> tag[1] == 'p'
    ensures StartsWith(text, ThrowsTag) ==> tag[1] == 't'
    ensures StartsWith(text, ReturnTag) ==> tag[1] == 'r'
    ensures StartsWith(text, SeeTag) ==> tag[1] == 's'
    ensures StartsWith(text, DeprecatedTag) ==> tag[1] == 'd'
  {
    assert text[0] == text[..|tag|][0] == '@';
    assert text[1] == text[..|tag|][1] == tag[1];
    if StartsWith(text, ParamTag) { assert text[1] == text[..|ParamTag|][1] == 'p'; }
    if StartsWith(text, ThrowsTag) { assert text[1] == text[..|ThrowsTag|][1] == 't'; }
    if StartsWith(text, ReturnTag) { assert text[1] == text[..|ReturnTag|][1] == 'r'; }
    if StartsWith(text, SeeTag) { assert text[1] == text[..|SeeTag|][1] == 's'; }
    if StartsWith(text, DeprecatedTag) { assert text[1] == text[..|DeprecatedTag|][1] == 'd'; }
  }

  /** The piece of a `@param` segment. */
  lemma ParseParam(texts: seq<string>, s: nat, e: nat)
    requires s < |texts| && TextWellFormed(texts[s]) && StartsWith(texts[s], ParamTag)
    ensures ' ' in AfterTag(texts[s], ParamTag)
    ensures Parse(texts, s, e) ==
              Param(SplitNextWord(AfterTag(texts[s], ParamTag)).0,
                    SplitNextWord(AfterTag(texts[s], ParamTag)).1 + AddedLines(texts, s + 1, e))
  {
    TagStart(texts[s], ParamTag);
  }

  /** The piece of a `@throws` segment. */
  lemma ParseThrows(texts: seq<string>, s: nat, e: nat)
    requires s < |texts| && TextWellFormed(texts[s]) && StartsWith(texts[s], ThrowsTag)
    ensures ' ' in AfterTag(texts[s], ThrowsTag)
    ensures Parse(texts, s, e) ==
              Throws(SplitNextWord(AfterTag(texts[s], ThrowsTag)).0,
                     SplitNextWord(AfterTag(texts[s], ThrowsTag)).1 + AddedLines(texts, s + 1, e))
  {
    TagStart(texts[s], ThrowsTag);
  }

  /** The piece of a `@return` segment. */
  lemma ParseReturns(texts: seq<string>, s: nat, e: nat)
    requires s < |texts| && TextWellFormed(texts[s]) && StartsWith(texts[s], ReturnTag)
    ensures ' ' in AfterTag(texts[s], ReturnTag)
    ensures Parse(texts, s, e) == Returns(SplitNextWord(AfterTag(texts[s], ReturnTag)).1)
  {
    TagStart(texts[s], ReturnTag);
  }

  /** The piece of a `@see` segment. */
  lemma ParseSee(texts: seq<string>, s: nat, e: nat)
    requires s < |texts| && TextWellFormed(texts[s]) && StartsWith(texts[s], SeeTag)
    ensures Parse(texts, s, e) == SeeAlso(AfterTag(texts[s], SeeTag))
  {
    TagStart(texts[s], SeeTag);
  }

  /** The piece of a `@deprecated` segment. */
  lemma ParseDeprecated(texts: seq<string>, s: nat, e: nat)
    requires s < |texts| && TextWellFormed(texts[s]) && StartsWith(texts[s], DeprecatedTag)
    ensures Parse(texts, s, e) == Deprecated(AfterTag(texts[s], DeprecatedTag) + JoinedLines(texts, s + 1, e))
  {
    TagStart(texts[s], DeprecatedTag);
  }

  /** The piece of a segment whose first line is no tag line: a summary with its `AddLine` continuations. */
  lemma ParseSummary(texts: seq<string>, s: nat, e: nat)
    requires s < |texts| && !IsBlank(texts[s]) && !IsTagText(texts[s])
    ensures Parse(texts, s, e) == Summary(texts[s] + AddedLines(texts, s + 1, e))
  {
  }

  /** A deprecation yields no line. */
  lemma DeprecatedRendersNothing(engine: Engine, p: Piece)
    requires p.Deprecated?
    ensures Render(engine, p) == ""
  {
  }

  /** The name and text of a `@param` or `@throws` piece, from its start line. */
  ghost predicate NamedPiece(texts: seq<string>, s: nat, e: nat, tag: string, name: string, text: string)
    requires s < |texts| && StartsWith(texts[s], tag)
  {
    ' ' !in name &&
    exists rest :: name + " " + rest == AfterTag(texts[s], tag) && text == rest + AddedLines(texts, s + 1, e)
  }

  /**
   * A `@param` segment: the name is the first word after the tag, the text is
   * the rest of the start line followed by each continuation line, and the
   * element wraps that text with its links rewritten.
   */
  lemma ParamShape(engine: Engine, texts: seq<string>, s: nat, e: nat)
    requires s < |texts| && TextWellFormed(texts[s])
    requires StartsWith(texts[s], ParamTag)
    ensures Parse(texts, s, e).Param?
    ensures NamedPiece(texts, s, e, ParamTag, Parse(texts, s, e).name, Parse(texts, s, e).text)
    ensures Render(engine, Parse(texts, s, e)) ==
              "/// <param name=\"" + Parse(texts, s, e).name + "\">" + Links(engine, Parse(texts, s, e).text) + "</param>"
  {
    var text := texts[s];
    TagStart(text, ParamTag);
    var (name, rest) := SplitNextWord(AfterTag(text, ParamTag));
    var p := Parse(texts, s, e);
    assert p == Param(name, rest + AddedLines(texts, s + 1, e));
    ParamLine(p.name, Links(engine, p.text));
  }

  /**
   * A `@throws` segment: the first word after the tag becomes the `cref` of an
   * `<exception>` element wrapping the rest, continuation lines included.
   */
  lemma ThrowsShape(engine: Engine, texts: seq<string>, s: nat, e: nat)
    requires s < |texts| && TextWellFormed(texts[s])
    requires StartsWith(texts[s], ThrowsTag)
    ensures Parse(texts, s, e).Throws?
    ensures NamedPiece(texts, s, e, ThrowsTag, Parse(texts, s, e).name, Parse(texts, s, e).text)
    ensures Render(engine, Parse(texts, s, e)) ==
              "/// <exception cref=\"" + Parse(texts, s, e).name + "\">" + Links(engine, Parse(texts, s, e).text) + "</exception>"
  {
    var text := texts[s];
    TagStart(text, ThrowsTag);
    var (name, rest) := SplitNextWord(AfterTag(text, ThrowsTag));
    var p := Parse(texts, s, e);
    assert p == Throws(name, rest + AddedLines(texts, s + 1, e));
    ExceptionLine(p.name, Links(engine, p.text));
  }

  /**
   * A `@return` segment drops the first word after the tag and ignores its
   * continuation lines: where the segment ends makes no difference.
   */
  lemma ReturnIgnoresContinuation(engine: Engine, texts: seq<string>, s: nat, e: nat)
    requires s < |texts| && TextWellFormed(texts[s])
    requires StartsWith(texts[s], ReturnTag)
    ensures Parse(texts, s, e) == Parse(texts, s, s + 1)
    ensures Parse(texts, s, e).Returns?
    ensures exists word :: ' ' !in word && word + " " + Parse(texts, s, e).text == AfterTag(texts[s], ReturnTag)
    ensures Render(engine, Parse(texts, s, e)) == "/// <returns>" + Links(engine, Parse(texts, s, e).text) + "</returns>"
  {
    var text := texts[s];
    TagStart(text, ReturnTag);
    var (word, rest) := SplitNextWord(AfterTag(text, ReturnTag));
    var p := Parse(texts, s, e);
    assert p == Returns(rest) == Parse(texts, s, s + 1);
    ReturnsLine(Links(engine, p.text));
  }

  /**
   * A `@deprecated` line, and no other, yields a message: the text after the
   * tag and the continuation lines joined by single spaces, newlines removed,
   * links rewritten.  The segment itself yields no line.
   */
  lemma DeprecatedContributesNoLine(engine: Engine, texts: seq<string>, s: nat, e: nat)
    requires s < |texts| ==> TextWellFormed(texts[s])
    ensures Message(engine, Parse(texts, s, e)).Some? <==> s < |texts| && StartsWith(texts[s], DeprecatedTag)
    ensures Parse(texts, s, e).Deprecated? ==>
              Render(engine, Parse(texts, s, e)) == "" &&
              Message(engine, Parse(texts, s, e)) ==
                Some(Links(engine, Replace(AfterTag(texts[s], DeprecatedTag) + JoinedLines(texts, s + 1, e), NewLine, "")))
  {
    if s < |texts| && StartsWith(texts[s], DeprecatedTag) {
      TagStart(texts[s], DeprecatedTag);
    }
  }

  /** The texts of a piece that `Render` and `Message` hand to link rewriting. */
  predicate LinksClosed(p: Piece) {
    match p
    case Param(_, text) => LegacyClosed(text)
    case Throws(_, text) => LegacyClosed(text)
    case Returns(text) => LegacyClosed(text)
    case Summary(text) => LegacyClosed(text)
    case Deprecated(text) => LegacyClosed(Replace(text, NewLine, ""))
    case _ => true
  }

  /** True when no text of the piece holds a `#`. */
  predicate HashFree(p: Piece) {
    match p
    case Param(_, text) => '#' !in text
    case Throws(_, text) => '#' !in text
    case Returns(text) => '#' !in text
    case Summary(text) => '#' !in text
    case Deprecated(text) => '#' !in text
    case _ => true
  }

  /** Without `#` in its texts, both converters turn a piece into the same line and message. */
  lemma EnginesRenderAlike(p: Piece)
    requires HashFree(p)
    ensures Render(Current, p) == Render(Legacy, p)
    ensures Message(Current, p) == Message(Legacy, p)
  {
    match p
    case Param(_, text) => EnginesAgreeWithoutHash(text);
    case Throws(_, text) => EnginesAgreeWithoutHash(text);
    case Returns(text) => EnginesAgreeWithoutHash(text);
    case Summary(text) => EnginesAgreeWithoutHash(text);
    case Deprecated(text) =>
      ReplaceKeepsAbsent(text, NewLine, "", '#');
      EnginesAgreeWithoutHash(Replace(text, NewLine, ""));
    case _ =>
  }

  /** The pieces of the segments, in segment order. */
  function Pieces(texts: seq<string>, segs: seq<(nat, nat)>): (pieces: seq<Piece>)
    requires WellFormed(texts)
    ensures |pieces| == |segs|
    ensures forall j :: 0 <= j < |segs| ==> pieces[j] == Parse(texts, segs[j].0, segs[j].1)
  {
    seq(|segs|, j requires 0 <= j < |segs| => Parse(texts, segs[j].0, segs[j].1))
  }

  /** The result of converting each piece, in order. */
  function Outputs(engine: Engine, pieces: seq<Piece>): (outs: seq<string>)
    ensures |outs| == |pieces|
    ensures forall j :: 0 <= j < |pieces| ==> outs[j] == Render(engine, pieces[j])
  {
    if pieces == [] then [] else Outputs(engine, pieces[..|pieces| - 1]) + [Render(engine, pieces[|pieces| - 1])]
  }

  /** Where no piece holds a `#`, both converters produce the same lines. */
  lemma OutputsAgreeWithoutHash(pieces: seq<Piece>)
    requires forall j :: 0 <= j < |pieces| ==> HashFree(pieces[j])
    ensures Outputs(Legacy, pieces) == Outputs(Current, pieces)
  {
    forall j | 0 <= j < |pieces|
      ensures Outputs(Legacy, pieces)[j] == Outputs(Current, pieces)[j]
    {
      EnginesRenderAlike(pieces[j]);
    }
  }

  /** Piece `j` is the last `@deprecated` one. */
  predicate LastDeprecatedAt(pieces: seq<Piece>, j: int) {
    0 <= j < |pieces| && pieces[j].Deprecated? && forall k :: j < k < |pieces| ==> !pieces[k].Deprecated?
  }

  /** The text of the last `@deprecated` piece, if any. */
  function LastDeprecation(pieces: seq<Piece>): (t: Option<string>)
    ensures t.None? <==> forall j :: 0 <= j < |pieces| ==> !pieces[j].Deprecated?
    ensures t.Some? ==> exists j :: LastDeprecatedAt(pieces, j) && t.value == pieces[j].text
  {
    if pieces == [] then None
    else
      var n := |pieces| - 1;
      var prefix := pieces[..n];
      assert forall j :: 0 <= j < n ==> prefix[j] == pieces[j];
      if pieces[n].Deprecated? then
        assert LastDeprecatedAt(pieces, n);
        Some(pieces[n].text)
      else
        var t := LastDeprecation(prefix);
        assert t.Some? ==> exists j :: LastDeprecatedAt(pieces, j) && t.value == pieces[j].text by {
          if t.Some? {
            var j :| LastDeprecatedAt(prefix, j) && t.value == prefix[j].text;
            assert LastDeprecatedAt(pieces, j);
          }
        }
        t
  }

  /**
   * `obsoleteMessage` after converting the pieces in order, starting from
   * `None`: the message of the last `@deprecated` piece.
   */
  function LastMessage(engine: Engine, pieces: seq<Piece>): (m: Option<string>)
    ensures m.None? <==> forall j :: 0 <= j < |pieces| ==> !pieces[j].Deprecated?
    ensures m.Some? ==> exists j :: LastDeprecatedAt(pieces, j) && m == Message(engine, pieces[j])
  {
    match LastDeprecation(pieces)
    case None => None
    case Some(text) => Some(MessageOf(engine, text))
  }

  /** Converting one more piece appends its line, if any, and replaces the message if it is a deprecation. */
  lemma ConversionStep(engine: Engine, pieces: seq<Piece>, k: nat)
    requires k < |pieces|
    ensures NonEmptyEntries(Outputs(engine, pieces[..k + 1])) ==
              NonEmptyEntries(Outputs(engine, pieces[..k])) +
              (if Render(engine, pieces[k]) != "" then [Render(engine, pieces[k])] else [])
    ensures LastMessage(engine, pieces[..k + 1]) ==
              if pieces[k].Deprecated? then Message(engine, pieces[k]) else LastMessage(engine, pieces[..k])
  {
    assert pieces[..k + 1][..k] == pieces[..k];
  }

  /**
   * The kept lines and the held message after converting the pieces one at
   * a time, as the loop of `Convert` does.
   */
  function Converted(engine: Engine, pieces: seq<Piece>): (seq<string>, Option<string>)
  {
    if pieces == [] then ([], None)
    else
      var n := |pieces| - 1;
      var before := Converted(engine, pieces[..n]);
      var line := Render(engine, pieces[n]);
      (if line != "" then before.0 + [line] else before.0,
       if pieces[n].Deprecated? then Message(engine, pieces[n]) else before.1)
  }

  /** One more piece: its line, if any, is kept, and a deprecation replaces the message. */
  lemma ConvertedNext(engine: Engine, pieces: seq<Piece>, k: nat)
    requires k < |pieces|
    ensures Converted(engine, pieces[..k + 1]).0 ==
              if Render(engine, pieces[k]) != "" then Converted(engine, pieces[..k]).0 + [Render(engine, pieces[k])]
              else Converted(engine, pieces[..k]).0
    ensures Converted(engine, pieces[..k + 1]).1 ==
              if pieces[k].Deprecated? then Message(engine, pieces[k]) else Converted(engine, pieces[..k]).1
  {
    assert pieces[..k + 1][..k] == pieces[..k];
  }

  /** Converting piece by piece keeps the non-empty outputs in order and ends with the last deprecation's message. */
  lemma {:induction false} ConvertedIsOutputsAndMessage(engine: Engine, pieces: seq<Piece>)
    ensures Converted(engine, pieces) == (NonEmptyEntries(Outputs(engine, pieces)), LastMessage(engine, pieces))
  {
    if pieces != [] {
      var n := |pieces| - 1;
      ConvertedIsOutputsAndMessage(engine, pieces[..n]);
      ConversionStep(engine, pieces, n);
      assert pieces[..n + 1] == pieces;
    }
  }

  /** The continuation loops read only the lines in `lo..hi`. */
  lemma {:induction false} ContinuationsReadRange(texts: seq<string>, other: seq<string>, lo: nat, hi: nat)
    requires hi <= |texts| == |other|
    requires forall i :: lo <= i < hi ==> texts[i] == other[i]
    ensures AddedLines(texts, lo, hi) == AddedLines(other, lo, hi)
    ensures JoinedLines(texts, lo, hi) == JoinedLines(other, lo, hi)
    decreases hi
  {
    if hi > lo {
      ContinuationsReadRange(texts, other, lo, hi - 1);
      ContinuationReadsOne(texts, other, hi - 1);
    }
  }

  /** A continuation reads only its own line. */
  lemma ContinuationReadsOne(texts: seq<string>, other: seq<string>, index: nat)
    requires index < |texts| == |other| && texts[index] == other[index]
    ensures AddLine(texts, index) == AddLine(other, index)
    ensures JoinLine(texts, index) == JoinLine(other, index)
  {
  }

  /**
   * A segment never reads its end line, whatever that line holds: for the
   * last segment, which ends at the last line's index, the last line is
   * lost unless it starts the segment.
   */
  lemma SegmentIgnoresEndLine(texts: seq<string>, s: nat, e: nat, line: string)
    requires s < e < |texts| && TextWellFormed(texts[s])
    ensures Parse(texts[e := line], s, e) == Parse(texts, s, e)
  {
    ContinuationsReadRange(texts, texts[e := line], s + 1, e);
    assert texts[e := line][s] == texts[s];
  }

  /** `ReplaceLinks` of the converter in use. */
  method ApplyLinks(engine: Engine, input: string) returns (r: string)
    requires engine == Legacy ==> LegacyClosed(input)
    ensures r == Links(engine, input)
  {
    if engine == Current {
      r := ReplaceLinks(input);
    } else {
      r := LegacyReplaceLinks(input);
    }
  }

  /** The `@param` branch of `ConvertSegment` (legacy: of `Convert(start, end)`). */
  method ConvertParam(engine: Engine, texts: seq<string>, startIndex: nat, endIndex: nat) returns (line: string)
    requires startIndex < |texts| && TextWellFormed(texts[startIndex]) && StartsWith(texts[startIndex], ParamTag)
    requires engine == Legacy ==> LinksClosed(Parse(texts, startIndex, endIndex))
    ensures line == Render(engine, Parse(texts, startIndex, endIndex))
    ensures Parse(texts, startIndex, endIndex).Param?
  {
    ParseParam(texts, startIndex, endIndex);
    var lineContent := TrimStart(texts[startIndex][|ParamTag|..]);
    var (paramName, content) := SplitNextWord(lineContent);
    var output := AppendAddedLines(texts, content, startIndex + 1, endIndex);
    output := ApplyLinks(engine, output);
    return "/// " + CreateTagWithVarAndContent("param", "name", paramName, output);
  }

  /** The `@throws` branch of `ConvertSegment` (legacy: of `Convert(start, end)`). */
  method ConvertThrows(engine: Engine, texts: seq<string>, startIndex: nat, endIndex: nat) returns (line: string)
    requires startIndex < |texts| && TextWellFormed(texts[startIndex]) && StartsWith(texts[startIndex], ThrowsTag)
    requires engine == Legacy ==> LinksClosed(Parse(texts, startIndex, endIndex))
    ensures line == Render(engine, Parse(texts, startIndex, endIndex))
    ensures Parse(texts, startIndex, endIndex).Throws?
  {
    ParseThrows(texts, startIndex, endIndex);
    var lineContent := TrimStart(texts[startIndex][|ThrowsTag|..]);
    var (paramName, content) := SplitNextWord(lineContent);
    var output := AppendAddedLines(texts, content, startIndex + 1, endIndex);
    output := ApplyLinks(engine, output);
    return "/// " + CreateTagWithVarAndContent("exception", "cref", paramName, output);
  }

  /** The `@return` branch of `ConvertSegment` (legacy: of `Convert(start, end)`): the first word is dropped. */
  method ConvertReturn(engine: Engine, texts: seq<string>, startIndex: nat, endIndex: nat) returns (line: string)
    requires startIndex < |texts| && TextWellFormed(texts[startIndex]) && StartsWith(texts[startIndex], ReturnTag)
    requires engine == Legacy ==> LinksClosed(Parse(texts, startIndex, endIndex))
    ensures line == Render(engine, Parse(texts, startIndex, endIndex))
    ensures Parse(texts, startIndex, endIndex).Returns?
  {
    ParseReturns(texts, startIndex, endIndex);
    var lineContent := TrimStart(texts[startIndex][|ReturnTag|..]);
    var (_, content) := SplitNextWord(lineContent);
    var output := ApplyLinks(engine, content);
    return "/// " + CreateTag("returns", output);
  }

  /** The `@see` branch of `ConvertSegment` (legacy: of `Convert(start, end)`): the rest of the line becomes a `cref`, unrewritten. */
  method ConvertSee(engine: Engine, texts: seq<string>, startIndex: nat, endIndex: nat) returns (line: string)
    requires startIndex < |texts| && TextWellFormed(texts[startIndex]) && StartsWith(texts[startIndex], SeeTag)
    ensures line == Render(engine, Parse(texts, startIndex, endIndex))
    ensures Parse(texts, startIndex, endIndex).SeeAlso?
  {
    ParseSee(texts, startIndex, endIndex);
    var lineContent := TrimStart(texts[startIndex][|SeeTag|..]);
    return "/// " + CreateTagWithVar("seealso", "cref", lineContent);
  }

  /** The `@deprecated` branch of `ConvertSegment` (legacy: of `Convert(start, end)`): the message it stores. */
  method ConvertDeprecated(engine: Engine, texts: seq<string>, startIndex: nat, endIndex: nat) returns (message: string)
    requires startIndex < |texts| && TextWellFormed(texts[startIndex]) && StartsWith(texts[startIndex], DeprecatedTag)
    requires engine == Legacy ==> LinksClosed(Parse(texts, startIndex, endIndex))
    ensures Parse(texts, startIndex, endIndex).Deprecated?
    ensures Render(engine, Parse(texts, startIndex, endIndex)) == ""
    ensures Some(message) == Message(engine, Parse(texts, startIndex, endIndex))
  {
    ParseDeprecated(texts, startIndex, endIndex);
    DeprecatedRendersNothing(engine, Parse(texts, startIndex, endIndex));
    var lineContent := TrimStart(texts[startIndex][|DeprecatedTag|..]);
    var output := AppendJoinedLines(texts, lineContent, startIndex + 1, endIndex);
    message := ApplyLinks(engine, Replace(output, NewLine, ""));
  }

  /** The closing branch of `ConvertSegment` (legacy: of `Convert(start, end)`): any other line opens a summary. */
  method ConvertSummary(engine: Engine, texts: seq<string>, startIndex: nat, endIndex: nat) returns (line: string)
    requires startIndex < |texts| && !IsBlank(texts[startIndex]) && !IsTagText(texts[startIndex])
    requires engine == Legacy ==> LinksClosed(Parse(texts, startIndex, endIndex))
    ensures line == Render(engine, Parse(texts, startIndex, endIndex))
    ensures Parse(texts, startIndex, endIndex).Summary?
  {
    assert Parse(texts, startIndex, endIndex) == Summary(texts[startIndex] + AddedLines(texts, startIndex + 1, endIndex));
    var output := AppendAddedLines(texts, texts[startIndex], startIndex + 1, endIndex);
    output := ApplyLinks(engine, output);
    if |output| == 0 {
      return CreateTag("summary", output);
    } else {
      return "/// " + CreateStartTag("summary") + NewLine + "/// " + output + NewLine + "/// " + CreateEndTag("summary");
    }
  }
}
