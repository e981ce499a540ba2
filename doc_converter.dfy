/**
 * The current converter (`DocConverter`): it accepts a comment that starts
 * with `/**` and ends with `*/` once surrounding whitespace is ignored, keeps
 * the non-empty lines of its body, converts each segment to a `///` line and
 * returns the deprecation message, if any, separately as an attribute.
 */
module DocConversion {
  import opened Wrappers
  import opened Text
  import opened DocHelper
  import opened LinkRewriting
  import opened Segmentation
  import opened SegmentConversion

  const DocStart: string := "/**"
  const DocEnd: string := "*/"

  /** The delimiter test: `/**` after leading whitespace, `*/` before trailing whitespace. */
  predicate Accepts(input: string) {
    StartsWith(TrimStart(input), DocStart) && EndsWith(TrimEnd(input), DocEnd)
  }

  /** The comment with every `/**` removed, then every `*/`. */
  function Body(text: string): string {
    Replace(Replace(text, DocStart, ""), DocEnd, "")
  }

  /**
   * The lines `Convert` stores: the body split at newlines, empty entries
   * dropped.
   */
  function BodyLines(text: string): (lines: seq<string>)
    ensures forall i :: 0 <= i < |lines| ==> lines[i] != ""
    ensures forall i, k :: 0 <= i < |lines| ==> !OccursAt(lines[i], NewLine, k)
  {
    var parts := Split(Body(text), NewLine);
    var lines := NonEmptyEntries(parts);
    assert forall i :: 0 <= i < |lines| ==> lines[i] in parts;
    lines
  }

  /**
   * The body lines are the non-empty ones among newline-free parts that,
   * joined by newlines, give back the body.
   */
  lemma BodyLinesRejoin(text: string)
    ensures BodyLines(text) == NonEmptyEntries(Split(Body(text), NewLine))
    ensures Join(NewLine, Split(Body(text), NewLine)) == Body(text)
  {
    SplitJoin(Body(text), NewLine);
  }

  /** A comment whose text holds no `*` has that text as its body. */
  lemma PlainCommentBody(x: string)
    requires '*' !in x
    ensures Body(DocStart + x + DocEnd) == x
  {
    var t := DocStart + x + DocEnd;
    assert t[..|DocStart|] == DocStart && t[|DocStart|..] == x + DocEnd;
    forall k | 0 <= k < |x|
      ensures !OccursAt(x + DocEnd, DocStart, k) && !OccursAt(x + DocEnd, DocEnd, k)
    {
      NoDelimiterInside(x, k);
    }
    ReplaceSkips(x, DocEnd, DocStart, "");
    assert Replace(t, DocStart, "") == x + DocEnd;
    ReplaceSkips(x, DocEnd, DocEnd, "");
    assert Replace(DocEnd, DocEnd, "") == "";
    assert x + "" == x;
  }

  /** The conversion can run: no `@param`, `@throws` or `@return` line lacks its space. */
  predicate Convertible(input: string) {
    Accepts(input) ==> WellFormed(Texts(BodyLines(input)))
  }

  /** The pieces of an accepted comment's segments, in order. */
  function BodyPieces(lines: seq<string>): (pieces: seq<Piece>)
    requires WellFormed(Texts(lines))
    ensures |pieces| == |Segments(lines)|
  {
    Pieces(Texts(lines), Segments(lines))
  }

  /** `[System.Obsolete("message")]` for a message, nothing without one. */
  function ObsoleteAttribute(message: Option<string>): (attrib: string)
    ensures attrib == "" <==> message.None?
    ensures message.Some? ==> StartsWith(attrib, "[System.Obsolete(\"")
  {
    if message.Some? then CreateAttributeWithValue("System.Obsolete", message.value) else ""
  }

  /** No delimiter starts inside a text without `*`, even with `DocEnd` after it. */
  lemma NoDelimiterInside(x: string, k: nat)
    requires '*' !in x && k < |x|
    ensures !OccursAt(x + DocEnd, DocStart, k) && !OccursAt(x + DocEnd, DocEnd, k)
  {
    var t := x + DocEnd;
    assert t[k] == x[k] != '*';
    assert t[k..k + |DocEnd|][0] == t[k];
    assert t[k..k + |DocStart|][1] == t[k + 1] && t[k..k + |DocStart|][2] == t[k + 2];
    if k + 1 < |x| {
      assert t[k + 1] == x[k + 1] != '*';
    } else {
      assert t[k + 2] == '/';
    }
  }

  /**
   * The pair `Convert` assembles from the pieces of an accepted comment: the
   * non-empty segment results joined by newlines, and the attribute for the
   * last deprecation message, after a newline when both are non-empty.
   */
  function Assembled(pieces: seq<Piece>): (r: (string, string))
    ensures r.1 == "" <==> forall j :: 0 <= j < |pieces| ==> !pieces[j].Deprecated?
    ensures StartsWith(r.1, NewLine) <==> r.0 != "" && r.1 != ""
  {
    var doc := Join(NewLine, NonEmptyEntries(Outputs(Current, pieces)));
    var attrib := ObsoleteAttribute(LastMessage(Current, pieces));
    if doc != "" && attrib != "" then
      assert (NewLine + attrib)[..|NewLine|] == NewLine;
      (doc, NewLine + attrib)
    else if attrib != "" then
      NewLineNotAttribute(attrib);
      (doc, attrib)
    else
      (doc, attrib)
  }

  /** An attribute starts with `[`, never with a newline. */
  lemma NewLineNotAttribute(attrib: string)
    requires StartsWith(attrib, "[System.Obsolete(\"")
    ensures !StartsWith(attrib, NewLine)
  {
    assert attrib[0] == attrib[..18][0] == '[';
  }

  /** What `Convert` returns: `("", "")` for a rejected input, the assembled pair otherwise. */
  function Conversion(input: string): (r: (string, string))
    requires Convertible(input)
  {
    if !Accepts(input) then ("", "") else Assembled(BodyPieces(BodyLines(input)))
  }

  /** An accepted input converts to the pair assembled from its pieces. */
  lemma AcceptedConversion(input: string)
    requires Convertible(input) && Accepts(input)
    ensures Conversion(input) == Assembled(BodyPieces(BodyLines(input)))
  {
  }

  class DocConverter {
    var obsoleteMessage: Option<string>
    var lines: seq<string>

    constructor ()
      ensures obsoleteMessage == None && lines == []
    {
      obsoleteMessage := None;
      lines := [];
    }

    /**
     * `Convert(input)`: on a rejected input it returns `("", "")` before
     * touching the fields; otherwise it stores the body lines and the last
     * deprecation message.
     */
    method Convert(input: string) returns (doc: string, attrib: string)
      requires Convertible(input)
      modifies this
      ensures (doc, attrib) == Conversion(input)
      ensures !Accepts(input) ==> lines == old(lines) && obsoleteMessage == old(obsoleteMessage)
      ensures Accepts(input) ==>
                lines == BodyLines(input) && obsoleteMessage == LastMessage(Current, BodyPieces(lines))
    {
      if !StartsWith(TrimStart(input), DocStart) || !EndsWith(TrimEnd(input), DocEnd) {
        return "", "";
      }
      obsoleteMessage := None;
      lines := BodyLines(input);
      var segments := FindSegments();
      var output := ConvertSegments(segments, Texts(lines), BodyPieces(lines));
      ConvertedIsOutputsAndMessage(Current, BodyPieces(lines));
      AcceptedConversion(input);
      doc := Join(NewLine, output);
      attrib := ObsoleteAttribute(obsoleteMessage);
      if doc != "" && attrib != "" {
        attrib := NewLine + attrib;
      }
    }

    /**
     * The loop of `Convert`: each segment in order, keeping the non-empty
     * lines; `obsoleteMessage` ends as the message of the last deprecation.
     */
    method ConvertSegments(segments: seq<(nat, nat)>, ghost texts: seq<string>, ghost pieces: seq<Piece>)
      returns (output: seq<string>)
      requires texts == Texts(lines) && WellFormed(texts)
      requires pieces == Pieces(texts, segments) && obsoleteMessage == None
      modifies this`obsoleteMessage
      ensures (output, obsoleteMessage) == Converted(Current, pieces)
    {
      output := [];
      var k := 0;
      while k < |segments|
        invariant 0 <= k <= |segments| == |pieces|
        invariant output == Converted(Current, pieces[..k]).0 && obsoleteMessage == Converted(Current, pieces[..k]).1
      {
        var (start, end) := segments[k];
        ConvertedNext(Current, pieces, k);
        var line := ConvertSegment(start, end, pieces[k]);
        if line != "" {
          output := output + [line];
        }
        assert output == Converted(Current, pieces[..k + 1]).0;
        k := k + 1;
      }
      assert pieces[..k] == pieces;
    }

    /** `FindSegments()`: one pass over the lines, cutting before every tag line but the first. */
    method FindSegments() returns (segments: seq<(nat, nat)>)
      ensures segments == Segments(lines)
    {
      var output: seq<(nat, nat)> := [];
      var linesLength := |lines|;
      var start: nat := 0;
      var i: nat := 0;
      while i < linesLength
        invariant i <= linesLength
        invariant output == ScanState(lines, i).0 && start == ScanState(lines, i).1
      {
        var line := Normalize(lines[i]);
        ScanStateNext(lines, i);
        assert IsTagText(line) == IsTagLine(lines[i]);
        if IsTagText(line) {
          if i - start > 0 {
            output := output + [(start, i)];
            start := i;
          }
        }
        i := i + 1;
      }
      if i - start > 0 {
        output := output + [(start, i - 1)];
      }
      return output;
    }

    /**
     * `ConvertSegment(startIndex, endIndex)`: the line for one segment; a
     * `@deprecated` segment stores its message in `obsoleteMessage` instead.
     * The body of each tag branch is one of the methods below.
     */
    method ConvertSegment(startIndex: nat, endIndex: nat, ghost piece: Piece) returns (line: string)
      requires startIndex < |lines| ==> TextWellFormed(Texts(lines)[startIndex])
      requires piece == Parse(Texts(lines), startIndex, endIndex)
      modifies this`obsoleteMessage
      ensures line == Render(Current, piece)
      ensures obsoleteMessage == if piece.Deprecated? then Message(Current, piece) else old(obsoleteMessage)
    {
      var texts := Texts(lines);
      if startIndex >= |lines| {
        return "";
      }
      var lineContent := Normalize(lines[startIndex]);
      assert lineContent == texts[startIndex];
      if IsBlank(lineContent) {
        return "";
      }
      if StartsWith(lineContent, ParamTag) {
        line := ConvertParam(Current, texts, startIndex, endIndex);
      } else if StartsWith(lineContent, ThrowsTag) {
        line := ConvertThrows(Current, texts, startIndex, endIndex);
      } else if StartsWith(lineContent, ReturnTag) {
        line := ConvertReturn(Current, texts, startIndex, endIndex);
      } else if StartsWith(lineContent, SeeTag) {
        line := ConvertSee(Current, texts, startIndex, endIndex);
      } else if StartsWith(lineContent, DeprecatedTag) {
        var message := ConvertDeprecated(Current, texts, startIndex, endIndex);
        obsoleteMessage := Some(message);
        line := "";
      } else {
        line := ConvertSummary(Current, texts, startIndex, endIndex);
      }
    }
  }
}
