/**
 * How both converters cut the comment body into segments: a line whose text
 * (with every `*` removed and trimmed) starts with one of the five block tags
 * opens a new segment, and the last segment is closed at the last line's
 * index.  A segment `(start, end)` owns its start line and the continuation
 * lines strictly between `start` and `end`.
 */
module Segmentation {
  import opened Text

  const ParamTag: string := "@param"
  const SeeTag: string := "@see"
  const ReturnTag: string := "@return"
  const ThrowsTag: string := "@throws"
  const DeprecatedTag: string := "@deprecated"

  /** A line as the converters inspect it: every `*` removed, then trimmed. */
  function Normalize(line: string): (r: string)
    ensures '*' !in r
  {
    var stars := Replace(line, "*", "");
    RemoveCharLeavesNone(line, '*');
    var r := Trim(stars);
    assert forall c :: c in r ==> c in stars by {
      forall c | c in r ensures c in stars {
        var i :| 0 <= i < |r| && r[i] == c;
        var t := TrimStart(stars);
        assert r[i] == t[i] == stars[|stars| - |t| + i];
      }
    }
    r
  }

  /** The normalized line is the line with every `*` dropped, its other characters kept in order, then trimmed. */
  lemma NormalizeIsTrimWithout(line: string)
    ensures Normalize(line) == Trim(Without(line, '*'))
  {
    RemoveCharIsWithout(line, '*');
  }

  /** Every line as the converters inspect it. */
  function Texts(lines: seq<string>): (texts: seq<string>)
    ensures |texts| == |lines|
    ensures forall i :: 0 <= i < |lines| ==> texts[i] == Normalize(lines[i])
  {
    seq(|lines|, i requires 0 <= i < |lines| => Normalize(lines[i]))
  }

  /** A normalized line starting with one of the five tags. */
  predicate IsTagText(text: string) {
    StartsWith(text, ParamTag) || StartsWith(text, SeeTag) || StartsWith(text, ThrowsTag) ||
    StartsWith(text, ReturnTag) || StartsWith(text, DeprecatedTag)
  }

  /** The line opens a segment of its own. */
  predicate IsTagLine(line: string) {
    IsTagText(Normalize(line))
  }

  /** Which lines are tag lines. */
  function TagFlags(lines: seq<string>): (flags: seq<bool>)
    ensures |flags| == |lines|
    ensures forall i :: 0 <= i < |lines| ==> flags[i] == IsTagLine(lines[i])
  {
    seq(|lines|, i requires 0 <= i < |lines| => IsTagLine(lines[i]))
  }

  /** The indices in `lo..hi` whose flag is set, ascending. */
  function SetIndices(flags: seq<bool>, lo: nat, hi: nat): (r: seq<nat>)
    requires hi <= |flags|
    ensures forall k :: 0 <= k < |r| ==> lo <= r[k] < hi && flags[r[k]]
    ensures forall a, b :: 0 <= a < b < |r| ==> r[a] < r[b]
    ensures forall i :: lo <= i < hi && flags[i] ==> i in r
    decreases hi
  {
    if hi <= lo then []
    else
      var r := SetIndices(flags, lo, hi - 1);
      if flags[hi - 1] then r + [hi - 1] else r
  }

  /** The first line of every segment: line 0, then every later flagged line. */
  function Boundaries(flags: seq<bool>): (b: seq<nat>)
    requires |flags| > 0
    ensures |b| > 0 && b[0] == 0
    ensures forall k :: 0 <= k < |b| ==> b[k] < |flags|
    ensures forall a, c :: 0 <= a < c < |b| ==> b[a] < b[c]
    ensures forall k :: 0 < k < |b| ==> flags[b[k]]
    ensures forall i :: 0 < i < |flags| && flags[i] ==> i in b
  {
    var t := SetIndices(flags, 1, |flags|);
    var b := [0] + t;
    assert forall k :: 0 < k < |b| ==> b[k] == t[k - 1];
    b
  }

  /** The segments `(b[j], b[j + 1])` between consecutive boundaries. */
  function ClosedPairs(b: seq<nat>): (r: seq<(nat, nat)>)
    ensures |r| == if |b| < 2 then 0 else |b| - 1
    ensures forall j :: 0 <= j < |r| ==> r[j] == (b[j], b[j + 1])
  {
    if |b| < 2 then [] else ClosedPairs(b[..|b| - 1]) + [(b[|b| - 2], b[|b| - 1])]
  }

  /** The boundaries among the first `i` lines. */
  function BoundariesUpTo(flags: seq<bool>, i: nat): (b: seq<nat>)
    requires i <= |flags|
    ensures |b| > 0 && b[0] == 0
    ensures forall k :: 0 <= k < |b| ==> b[k] <= i && (i > 0 ==> b[k] < i)
  {
    [0] + SetIndices(flags, 1, i)
  }

  /** Looking at one more line adds it as a boundary exactly when it is a flagged line past the first. */
  lemma BoundariesUpToStep(flags: seq<bool>, i: nat)
    requires i < |flags|
    ensures BoundariesUpTo(flags, i + 1) ==
              if i > 0 && flags[i] then BoundariesUpTo(flags, i) + [i] else BoundariesUpTo(flags, i)
  {
  }

  /** Appending a boundary appends the segment that ends there. */
  lemma ClosedPairsSnoc(b: seq<nat>, x: nat)
    requires |b| > 0
    ensures ClosedPairs(b + [x]) == ClosedPairs(b) + [(b[|b| - 1], x)]
  {
    assert (b + [x])[..|b|] == b;
  }

  /** All lines seen: the segments are the closed pairs and, for a non-empty body, the last, open one. */
  lemma SegmentsOfScan(flags: seq<bool>, closed: seq<(nat, nat)>, start: nat)
    requires closed == ClosedPairs(BoundariesUpTo(flags, |flags|))
    requires start == BoundariesUpTo(flags, |flags|)[|BoundariesUpTo(flags, |flags|)| - 1]
    ensures SegmentsOf(flags) == if |flags| > 0 then closed + [(start, |flags| - 1)] else closed
  {
  }

  /**
   * The closed segments and the start of the open one after the first `i`
   * lines, as the segmenting loop keeps them.
   */
  function ScanState(lines: seq<string>, i: nat): (state: (seq<(nat, nat)>, nat))
    requires i <= |lines|
    ensures i > 0 ==> state.1 < i
  {
    if i == 0 then ([], 0)
    else
      var before := ScanState(lines, i - 1);
      if IsTagLine(lines[i - 1]) && i - 1 - before.1 > 0 then (before.0 + [(before.1, i - 1)], i - 1)
      else before
  }

  /** One more line: a tag line past the open segment's start closes that segment and opens its own. */
  lemma ScanStateNext(lines: seq<string>, i: nat)
    requires i < |lines|
    ensures var before := ScanState(lines, i);
      var cut := IsTagLine(lines[i]) && i - before.1 > 0;
      ScanState(lines, i + 1).0 == (if cut then before.0 + [(before.1, i)] else before.0) &&
      ScanState(lines, i + 1).1 == (if cut then i else before.1)
  {
  }

  /** The loop's state: the segments between the boundaries seen so far, and the last boundary. */
  lemma {:induction false} ScanStateBoundaries(lines: seq<string>, i: nat)
    requires i <= |lines|
    ensures var b := BoundariesUpTo(TagFlags(lines), i);
      ScanState(lines, i).0 == ClosedPairs(b) && ScanState(lines, i).1 == b[|b| - 1]
  {
    if i > 0 {
      var flags := TagFlags(lines);
      ScanStateBoundaries(lines, i - 1);
      BoundariesUpToStep(flags, i - 1);
      ScanStateNext(lines, i - 1);
      assert flags[i - 1] == IsTagLine(lines[i - 1]);
      if i - 1 > 0 && flags[i - 1] {
        ClosedPairsSnoc(BoundariesUpTo(flags, i - 1), i - 1);
      }
    }
  }

  /**
   * The segments line by line, as `FindSegments` and `FindChunks` find them
   * and are the same as the segments between boundaries.
   */
  lemma SegmentsAreBoundaryPairs(lines: seq<string>)
    ensures Segments(lines) == SegmentsOf(TagFlags(lines))
  {
    var flags := TagFlags(lines);
    ScanStateBoundaries(lines, |lines|);
    var b := BoundariesUpTo(flags, |flags|);
    SegmentsOfScan(flags, ClosedPairs(b), b[|b| - 1]);
  }

  /** The segments of a body whose tag lines are the flagged ones. */
  function SegmentsOf(flags: seq<bool>): (segs: seq<(nat, nat)>)
  {
    if |flags| == 0 then []
    else
      var b := Boundaries(flags);
      ClosedPairs(b) + [(b[|b| - 1], |flags| - 1)]
  }

  /** Segment `j` runs from boundary `j` to the next boundary, or to the last line. */
  lemma SegmentAt(flags: seq<bool>, j: nat)
    requires |flags| > 0 && j < |Boundaries(flags)|
    ensures |SegmentsOf(flags)| == |Boundaries(flags)|
    ensures SegmentsOf(flags)[j] == (Boundaries(flags)[j],
              if j < |Boundaries(flags)| - 1 then Boundaries(flags)[j + 1] else |flags| - 1)
  {
    var b := Boundaries(flags);
    if j < |b| - 1 {
      assert SegmentsOf(flags)[j] == ClosedPairs(b)[j] == (b[j], b[j + 1]);
    }
  }

  /**
   * `segs` cover the line indices `0..n - 1` in order: none for no lines,
   * the first starting at 0 and the last ending at `n - 1`, each within
   * range, and each ending where the next starts, past its own start.
   */
  predicate Covers(segs: seq<(nat, nat)>, n: nat) {
    (n == 0 <==> segs == []) &&
    (n > 0 ==> segs[0].0 == 0 && segs[|segs| - 1].1 == n - 1) &&
    (forall j :: 0 <= j < |segs| ==> segs[j].0 <= segs[j].1 < n) &&
    (forall j :: 0 <= j < |segs| - 1 ==> segs[j].0 < segs[j].1 == segs[j + 1].0)
  }

  /**
   * The shape of the segments: they cover the lines, and each but the last
   * ends on a flagged line.
   */
  lemma SegmentsOfShape(flags: seq<bool>)
    ensures Covers(SegmentsOf(flags), |flags|)
    ensures forall j :: 0 <= j < |SegmentsOf(flags)| - 1 ==>
              SegmentsOf(flags)[j].1 < |flags| && flags[SegmentsOf(flags)[j].1]
  {
    if |flags| > 0 {
      var b := Boundaries(flags);
      var segs := SegmentsOf(flags);
      forall j | 0 <= j < |segs| ensures segs[j].0 <= segs[j].1 < |flags| {
        SegmentAt(flags, j);
      }
      SegmentAt(flags, 0);
      SegmentAt(flags, |b| - 1);
      forall j | 0 <= j < |segs| - 1
        ensures segs[j].0 < segs[j].1 == segs[j + 1].0 && flags[segs[j].1]
      {
        SegmentAt(flags, j);
        SegmentAt(flags, j + 1);
      }
      assert Covers(segs, |flags|);
    }
  }

  /**
   * The segments `FindSegments` and `FindChunks` return: after the scan, the
   * segment still open is closed at the last line's index.
   */
  function Segments(lines: seq<string>): (segs: seq<(nat, nat)>)
  {
    var state := ScanState(lines, |lines|);
    if |lines| > 0 then state.0 + [(state.1, |lines| - 1)] else state.0
  }

  /** No line strictly between `start` and `end` is flagged. */
  predicate UnflaggedBetween(flags: seq<bool>, start: nat, end: nat)
    requires end <= |flags|
  {
    forall i :: start < i < end ==> !flags[i]
  }

  /** Strictly between boundary `j` and the next one (if any) lies no boundary. */
  lemma NotBetweenBoundaries(b: seq<nat>, j: nat, i: nat)
    requires j < |b| && forall a, c :: 0 <= a < c < |b| ==> b[a] < b[c]
    requires b[j] < i && (j + 1 < |b| ==> i < b[j + 1])
    ensures i !in b
  {
    forall k | 0 <= k < |b| ensures b[k] != i {
      if k <= j {
        assert b[k] <= b[j];
      } else {
        assert b[j + 1] <= b[k];
      }
    }
  }

  /** No flagged line sits strictly inside a segment: each one is no boundary. */
  lemma SegmentsOfInsideUnflagged(flags: seq<bool>)
    ensures forall j :: 0 <= j < |SegmentsOf(flags)| ==>
              SegmentsOf(flags)[j].1 <= |flags| && UnflaggedBetween(flags, SegmentsOf(flags)[j].0, SegmentsOf(flags)[j].1)
  {
    if |flags| > 0 {
      SegmentAt(flags, 0);
      forall j | 0 <= j < |SegmentsOf(flags)|
        ensures SegmentsOf(flags)[j].1 <= |flags| && UnflaggedBetween(flags, SegmentsOf(flags)[j].0, SegmentsOf(flags)[j].1)
      {
        SegmentUnflagged(flags, j);
      }
    }
  }

  /** Segment `j` holds no flagged line strictly inside it. */
  lemma SegmentUnflagged(flags: seq<bool>, j: nat)
    requires |flags| > 0 && j < |Boundaries(flags)|
    ensures j < |SegmentsOf(flags)|
    ensures SegmentsOf(flags)[j].1 <= |flags| && UnflaggedBetween(flags, SegmentsOf(flags)[j].0, SegmentsOf(flags)[j].1)
  {
    var b := Boundaries(flags);
    SegmentAt(flags, j);
    var end := if j < |b| - 1 then b[j + 1] else |flags| - 1;
    assert SegmentsOf(flags)[j] == (b[j], end);
    forall i | b[j] < i < end ensures !flags[i] {
      NotBetweenBoundaries(b, j, i);
    }
    assert UnflaggedBetween(flags, b[j], end);
  }

  /** A flagged last line starts the last segment, so it is no continuation line. */
  lemma SegmentsOfFlaggedLast(flags: seq<bool>)
    requires |flags| > 0 && flags[|flags| - 1]
    ensures SegmentsOf(flags)[|SegmentsOf(flags)| - 1].0 == |flags| - 1
  {
    var n := |flags|;
    var b := Boundaries(flags);
    if n > 1 {
      var k :| 0 <= k < |b| && b[k] == n - 1;
      assert b[k] <= b[|b| - 1];
    }
    SegmentAt(flags, |b| - 1);
  }

  /** No line strictly between `start` and `end` is a tag line. */
  predicate NoTagLineBetween(lines: seq<string>, start: nat, end: nat)
    requires end <= |lines|
  {
    forall i :: start < i < end ==> !IsTagLine(lines[i])
  }

  /**
   * The segments cover the lines in order: the first starts at line 0, each
   * ends where the next starts, and the last ends at the last line's index.
   */
  lemma SegmentsCover(lines: seq<string>)
    ensures Covers(Segments(lines), |lines|)
  {
    var flags := TagFlags(lines);
    SegmentsOfShape(flags);
    SegmentsAreBoundaryPairs(lines);
  }

  /** Every segment but the last ends on a tag line: the one that opens the next segment. */
  lemma SegmentsEndOnTagLines(lines: seq<string>)
    ensures forall j :: 0 <= j < |Segments(lines)| - 1 ==>
              Segments(lines)[j].1 < |lines| && IsTagLine(lines[Segments(lines)[j].1])
  {
    var flags := TagFlags(lines);
    SegmentsAreBoundaryPairs(lines);
    SegmentsOfShape(flags);
  }

  /**
   * No tag line sits strictly inside a segment, and a tag line at the end
   * starts the last segment: so the last line is converted only when it
   * starts a segment of its own.
   */
  lemma SegmentsHoldNoInnerTagLine(lines: seq<string>)
    ensures forall j :: 0 <= j < |Segments(lines)| ==>
              Segments(lines)[j].1 <= |lines| && NoTagLineBetween(lines, Segments(lines)[j].0, Segments(lines)[j].1)
    ensures |lines| > 0 && IsTagLine(lines[|lines| - 1]) ==>
              Segments(lines)[|Segments(lines)| - 1].0 == |lines| - 1
  {
    var flags := TagFlags(lines);
    SegmentsAreBoundaryPairs(lines);
    SegmentsOfInsideUnflagged(flags);
    if |lines| > 0 && IsTagLine(lines[|lines| - 1]) {
      SegmentsOfFlaggedLast(flags);
    }
  }
}
