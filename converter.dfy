/**
 * The legacy converter (`Converter`): the same segmentation and segment
 * conversion as `DocConverter`, with these differences.
 * - It trims the input before the delimiter test and returns no string at
 *   all (`null`, here `None`) for a rejected input.
 * - It keeps every segment result, empty ones included.
 * - It appends `[Obsolete("message")]` to the joined lines.
 * - Its `ReplaceLinks` keeps `#` and needs a `}` after every marker.
 */
module LegacyConversion {
  import opened Wrappers
  import opened Text
  import opened DocHelper
  import opened LinkRewriting
  import opened Segmentation
  import opened SegmentConversion
  import opened DocConversion

  /** The delimiter test, on the input trimmed at both ends. */
  predicate LegacyAccepts(input: string) {
    StartsWith(Trim(input), DocStart) && EndsWith(Trim(input), DocEnd)
  }

  /**
   * Both converters accept the same inputs: `/**` ends and `*/` starts with
   * a non-whitespace character, so trimming the other end changes nothing.
   */
  lemma LegacyAcceptsIffAccepts(input: string)
    ensures LegacyAccepts(input) <==> Accepts(input)
  {
    TrimKeepsPrefix(input, DocStart);
    TrimKeepsSuffix(input, DocEnd);
  }

  /** Every piece's links are closed, as the legacy `ReplaceLinks` needs. */
  predicate AllLinksClosed(pieces: seq<Piece>) {
    forall j :: 0 <= j < |pieces| ==> LinksClosed(pieces[j])
  }

  /**
   * The legacy conversion can run: no `@param`, `@throws` or `@return` line
   * lacks its space, and no link marker lacks its `}`.
   */
  predicate LegacyConvertible(input: string) {
    LegacyAccepts(input) ==>
      WellFormed(Texts(BodyLines(Trim(input)))) && AllLinksClosed(BodyPieces(BodyLines(Trim(input))))
  }

  /**
   * The list the legacy `Convert` joins: the result of every segment, empty
   * ones included, then `[Obsolete("message")]` for the last deprecation.
   */
  function LegacyEntries(pieces: seq<Piece>): (entries: seq<string>)
    ensures |entries| == |pieces| + (if LastMessage(Legacy, pieces).Some? then 1 else 0)
    ensures forall j :: 0 <= j < |pieces| ==> entries[j] == Render(Legacy, pieces[j])
    ensures forall j :: 0 <= j < |pieces| && pieces[j].Deprecated? ==> entries[j] == ""
    ensures LastMessage(Legacy, pieces).Some? ==>
              entries[|pieces|] == CreateAttributeWithValue("Obsolete", LastMessage(Legacy, pieces).value)
  {
    Outputs(Legacy, pieces) +
    match LastMessage(Legacy, pieces)
    case Some(message) => [CreateAttributeWithValue("Obsolete", message)]
    case None => []
  }

  /**
   * What the legacy `Convert` returns: nothing for a rejected input, which
   * is exactly an input the current converter rejects; otherwise the
   * entries joined by newlines.
   */
  function LegacyResult(input: string): (r: Option<string>)
    requires LegacyConvertible(input)
    ensures r.None? <==> !Accepts(input)
  {
    LegacyAcceptsIffAccepts(input);
    if !LegacyAccepts(input) then None
    else Some(Join(NewLine, LegacyEntries(BodyPieces(BodyLines(Trim(input))))))
  }

  /**
   * The lines and the held message after converting the pieces one at a
   * time, as the loop of the legacy `Convert` does: every line is kept.
   */
  function LegacyConverted(pieces: seq<Piece>): (seq<string>, Option<string>)
  {
    if pieces == [] then ([], None)
    else
      var n := |pieces| - 1;
      var before := LegacyConverted(pieces[..n]);
      (before.0 + [Render(Legacy, pieces[n])],
       if pieces[n].Deprecated? then Message(Legacy, pieces[n]) else before.1)
  }

  /** One more piece: its line is kept, empty or not, and a deprecation replaces the message. */
  lemma LegacyConvertedNext(pieces: seq<Piece>, k: nat)
    requires k < |pieces|
    ensures LegacyConverted(pieces[..k + 1]).0 == LegacyConverted(pieces[..k]).0 + [Render(Legacy, pieces[k])]
    ensures LegacyConverted(pieces[..k + 1]).1 ==
              if pieces[k].Deprecated? then Message(Legacy, pieces[k]) else LegacyConverted(pieces[..k]).1
  {
    assert pieces[..k + 1][..k] == pieces[..k];
  }

  /** Converting piece by piece keeps every output in order and ends with the last deprecation's message. */
  lemma {:induction false} LegacyConvertedIsOutputsAndMessage(pieces: seq<Piece>)
    ensures LegacyConverted(pieces).0 == Outputs(Legacy, pieces)
    ensures LegacyConverted(pieces).1 == LastMessage(Legacy, pieces)
  {
    if pieces != [] {
      var n := |pieces| - 1;
      LegacyConvertedIsOutputsAndMessage(pieces[..n]);
      ConversionStep(Legacy, pieces, n);
      assert pieces[..n + 1] == pieces;
    }
  }

  /** The loop's lines, with the attribute for the message it ends with, are the legacy entries. */
  lemma LoopGivesEntries(pieces: seq<Piece>)
    ensures LegacyConverted(pieces).1 == LastMessage(Legacy, pieces)
    ensures LegacyEntries(pieces) ==
              LegacyConverted(pieces).0 +
              if LegacyConverted(pieces).1.Some? then [CreateAttributeWithValue("Obsolete", LegacyConverted(pieces).1.value)] else []
  {
    LegacyConvertedIsOutputsAndMessage(pieces);
  }

  /** An accepted input converts to its entries joined. */
  lemma LegacyAcceptedConversion(input: string)
    requires LegacyConvertible(input) && LegacyAccepts(input)
    ensures LegacyResult(input) == Some(Join(NewLine, LegacyEntries(BodyPieces(BodyLines(Trim(input))))))
  {
  }

  /** After a deprecation, the attribute is the last line of the legacy result. */
  lemma LegacyAttributeIsLastLine(pieces: seq<Piece>)
    requires LastMessage(Legacy, pieces).Some?
    ensures EndsWith(Join(NewLine, LegacyEntries(pieces)),
                     NewLine + CreateAttributeWithValue("Obsolete", LastMessage(Legacy, pieces).value))
  {
    var attrib := CreateAttributeWithValue("Obsolete", LastMessage(Legacy, pieces).value);
    var outs := Outputs(Legacy, pieces);
    assert pieces != [];
    assert LegacyEntries(pieces) == outs + [attrib];
    JoinEndsWithLast(NewLine, outs, attrib);
  }

  /** A piece both converters turn into the same non-empty line: no `#` in it, and not a deprecation. */
  predicate Plain(p: Piece) {
    HashFree(p) && !p.Deprecated? && Render(Current, p) != ""
  }

  /**
   * Where every segment yields a line and no text holds a `#`, the legacy
   * entries joined are the current converter's documentation, and the
   * current attribute is empty.
   */
  lemma EnginesAgreeOnPieces(pieces: seq<Piece>)
    requires forall j :: 0 <= j < |pieces| ==> Plain(pieces[j])
    ensures Join(NewLine, LegacyEntries(pieces)) == Assembled(pieces).0
    ensures Assembled(pieces).1 == ""
  {
    var outs := Outputs(Current, pieces);
    OutputsAgreeWithoutHash(pieces);
    NonEmptyEntriesKeepsAll(outs);
    assert LastMessage(Legacy, pieces) == None;
    assert LegacyEntries(pieces) == outs;
  }

  /**
   * On an accepted input with no surrounding whitespace whose segments all
   * yield a line, none a deprecation and none with a `#`, both converters
   * produce the same documentation and the current attribute is empty.
   * (Rejection needs no lemma: `LegacyResult` is `None` exactly when
   * `Accepts` fails.)
   */
  lemma EnginesAgreeOnAccepted(input: string)
    requires Trim(input) == input && Convertible(input) && LegacyConvertible(input) && Accepts(input)
    requires forall j :: 0 <= j < |BodyPieces(BodyLines(input))| ==> Plain(BodyPieces(BodyLines(input))[j])
    ensures LegacyResult(input) == Some(Conversion(input).0) && Conversion(input).1 == ""
  {
    LegacyAcceptsIffAccepts(input);
    var pieces := BodyPieces(BodyLines(input));
    var legacy := Join(NewLine, LegacyEntries(pieces));
    assert LegacyResult(input) == Some(legacy) by { LegacyAcceptedConversion(input); }
    assert Conversion(input) == Assembled(pieces) by { AcceptedConversion(input); }
    assert legacy == Assembled(pieces).0 && Assembled(pieces).1 == "" by { EnginesAgreeOnPieces(pieces); }
  }

  class Converter {
    var obsoleteMessage: Option<string>
    var lines: seq<string>

    constructor ()
      ensures obsoleteMessage == None && lines == []
    {
      obsoleteMessage := None;
      lines := [];
    }

    /**
     * `Convert(input)`: on a rejected input it returns `None` before
     * touching the fields; otherwise it stores the body lines of the trimmed
     * input and the last deprecation message.
     */
    method Convert(input: string) returns (r: Option<string>)
      requires LegacyConvertible(input)
      modifies this
      ensures r == LegacyResult(input)
      ensures !LegacyAccepts(input) ==> lines == old(lines) && obsoleteMessage == old(obsoleteMessage)
      ensures LegacyAccepts(input) ==>
                lines == BodyLines(Trim(input)) && obsoleteMessage == LastMessage(Legacy, BodyPieces(lines))
    {
      var trimmed := Trim(input);
      if !StartsWith(trimmed, DocStart) || !EndsWith(trimmed, DocEnd) {
        return None;
      }
      obsoleteMessage := None;
      lines := BodyLines(trimmed);
      var output := ConvertLines();
      LegacyAcceptedConversion(input);
      return Some(Join(NewLine, output));
    }

    /**
     * The part of `Convert` after the lines are stored: every chunk's result,
     * then the attribute for the last deprecation message.
     */
    method ConvertLines() returns (output: seq<string>)
      requires WellFormed(Texts(lines)) && AllLinksClosed(BodyPieces(lines)) && obsoleteMessage == None
      modifies this`obsoleteMessage
      ensures output == LegacyEntries(BodyPieces(lines))
      ensures obsoleteMessage == LastMessage(Legacy, BodyPieces(lines))
    {
      var chunks := FindChunks();
      ghost var pieces := BodyPieces(lines);
      output := ConvertChunks(chunks, Texts(lines), pieces);
      LoopGivesEntries(pieces);
      if obsoleteMessage.Some? {
        output := output + [CreateAttributeWithValue("Obsolete", obsoleteMessage.value)];
      }
    }

    /**
     * The loop of `Convert`: the result of each chunk in order, empty ones
     * included; `obsoleteMessage` ends as the message of the last deprecation.
     */
    method ConvertChunks(chunks: seq<(nat, nat)>, ghost texts: seq<string>, ghost pieces: seq<Piece>)
      returns (output: seq<string>)
      requires texts == Texts(lines) && WellFormed(texts)
      requires pieces == Pieces(texts, chunks) && AllLinksClosed(pieces) && obsoleteMessage == None
      modifies this`obsoleteMessage
      ensures output == LegacyConverted(pieces).0 && obsoleteMessage == LegacyConverted(pieces).1
    {
      output := [];
      var k := 0;
      while k < |chunks|
        invariant 0 <= k <= |chunks| == |pieces|
        invariant output == LegacyConverted(pieces[..k]).0 && obsoleteMessage == LegacyConverted(pieces[..k]).1
      {
        var (start, end) := chunks[k];
        LegacyConvertedNext(pieces, k);
        var line := ConvertChunk(start, end, pieces[k]);
        output := output + [line];
        k := k + 1;
      }
      assert pieces[..k] == pieces;
    }

    /** `FindChunks()`: the same pass as `DocConverter.FindSegments`. */
    method FindChunks() returns (chunks: seq<(nat, nat)>)
      ensures chunks == Segments(lines)
    {
      var output: seq<(nat, nat)> := [];
      var linesLength := |lines|;
      var start: nat := 0;
      var i: nat := 0;
      while i < linesLength
        invariant i <= linesLength
        invariant output == ScanState(lines, i).0 && start == ScanState(lines, i).1
      {
        var line := Normalize(lines[i]);
        ScanStateNext(lines, i);
        assert IsTagText(line) == IsTagLine(lines[i]);
        if IsTagText(line) {
          if i - start > 0 {
            output := output + [(start, i)];
            start := i;
          }
        }
        i := i + 1;
      }
      if i - start > 0 {
        output := output + [(start, i - 1)];
      }
      return output;
    }

    /**
     * `Convert(start, end)`: the line for one chunk; a `@deprecated` chunk
     * stores its message in `obsoleteMessage` and yields an empty line.
     */
    method ConvertChunk(start: nat, end: nat, ghost piece: Piece) returns (line: string)
      requires start < |lines| ==> TextWellFormed(Texts(lines)[start])
      requires piece == Parse(Texts(lines), start, end) && LinksClosed(piece)
      modifies this`obsoleteMessage
      ensures line == Render(Legacy, piece)
      ensures obsoleteMessage == if piece.Deprecated? then Message(Legacy, piece) else old(obsoleteMessage)
    {
      var texts := Texts(lines);
      if start >= |lines| {
        return "";
      }
      var lineContent := Normalize(lines[start]);
      assert lineContent == texts[start];
      if IsBlank(lineContent) {
        return "";
      }
      if StartsWith(lineContent, ParamTag) {
        line := ConvertParam(Legacy, texts, start, end);
      } else if StartsWith(lineContent, ThrowsTag) {
        line := ConvertThrows(Legacy, texts, start, end);
      } else if StartsWith(lineContent, ReturnTag) {
        line := ConvertReturn(Legacy, texts, start, end);
      } else if StartsWith(lineContent, SeeTag) {
        line := ConvertSee(Legacy, texts, start, end);
      } else if StartsWith(lineContent, DeprecatedTag) {
        var message := ConvertDeprecated(Legacy, texts, start, end);
        obsoleteMessage := Some(message);
        line := "";
      } else {
        line := ConvertSummary(Legacy, texts, start, end);
      }
    }
  }
}
