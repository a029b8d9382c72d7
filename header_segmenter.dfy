/** The early segmenter of the Raven Rock text: it picks the header lines (those
    containing `] (`), finds each header's line by a linear search, and copies
    the lines from one header up to the next into a fresh array. */
module HeaderSegmenter {
  import opened Wrappers
  import opened NetStrings
  import opened Sequences

  // ---------------------------------------------------------------------------
  // Linear search

  /** The first position at or after `i` holding `needle`, or -1. */
  function FirstIndexFrom(haystack: seq<string>, needle: string, i: nat): (r: int)
    requires i <= |haystack|
    ensures r == -1 <==> needle !in haystack[i..]
    ensures r != -1 ==> i <= r < |haystack| && haystack[r] == needle && needle !in haystack[i..r]
    decreases |haystack| - i
  {
    if i == |haystack| then -1
    else if haystack[i] == needle then i
    else
      assert haystack[i..] == [haystack[i]] + haystack[i + 1..];
      var r := FirstIndexFrom(haystack, needle, i + 1);
      assert r != -1 ==> haystack[i..r] == [haystack[i]] + haystack[i + 1..r];
      r
  }

  /** The first position holding `needle`, or -1 when there is none. */
  function FirstIndex(haystack: seq<string>, needle: string): (r: int)
    ensures r == -1 <==> needle !in haystack
    ensures r != -1 ==> 0 <= r < |haystack| && haystack[r] == needle && needle !in haystack[..r]
  {
    assert haystack[0..] == haystack;
    var r := FirstIndexFrom(haystack, needle, 0);
    assert r != -1 ==> haystack[0..r] == haystack[..r];
    r
  }

  /** GetFirstMatchingIndex: a for-loop over the array that returns at the first match. */
  method GetFirstMatchingIndex(haystack: array<string>, needle: string) returns (r: int)
    ensures r == FirstIndex(haystack[..], needle)
  {
    for i := 0 to haystack.Length
      invariant FirstIndex(haystack[..], needle) == FirstIndexFrom(haystack[..], needle, i)
    {
      if haystack[i] == needle {
        return i;
      }
    }
    return -1;
  }

  // ---------------------------------------------------------------------------
  // The segments

  /** The header filter `l.Contains("] (")`. */
  predicate HasHeaderMarker(line: string) {
    Contains(line, "] (")
  }

  /** The header lines, in order. */
  function HeaderLines(rawLines: seq<string>): seq<string> {
    Filter(rawLines, HasHeaderMarker)
  }

  /** The segment built for header `i`: from the header's first line up to,
      not including, the next header's first line. A header that is not found
      throws InvalidOperationException; a next header found earlier makes the
      array size negative, which throws OverflowException. */
  function SegmentAt(rawLines: seq<string>, headers: seq<string>, i: nat): Result<seq<string>, Exception>
    requires i + 1 < |headers|
  {
    var headerIdx := FirstIndex(rawLines, headers[i]);
    var nextHeaderIdx := FirstIndex(rawLines, headers[i + 1]);
    if headerIdx == -1 || nextHeaderIdx == -1 then Failure(InvalidOperation(""))
    else if nextHeaderIdx - headerIdx < 0 then Failure(Overflow)
    else Success(rawLines[headerIdx..nextHeaderIdx])
  }

  /** How many segments the loop builds: one per header but the last. */
  function SegmentCount(headers: seq<string>): nat {
    if |headers| == 0 then 0 else |headers| - 1
  }

  /** What each pass of the loop builds. */
  function SegmentResults(rawLines: seq<string>, headers: seq<string>): (rs: seq<Result<seq<string>, Exception>>)
    ensures |rs| == SegmentCount(headers)
  {
    seq(SegmentCount(headers), i requires 0 <= i < SegmentCount(headers) => SegmentAt(rawLines, headers, i))
  }

  /** The arrays `currentDef` the loop of Main builds, in order, or the first
      exception thrown. */
  function Segments(rawLines: seq<string>): Result<seq<seq<string>>, Exception> {
    var headers := HeaderLines(rawLines);
    CollectUpTo(SegmentResults(rawLines, headers), SegmentCount(headers))
  }

  /** Header lines come from the lines themselves, so the search for a header
      never gives -1 and the InvalidOperationException is never thrown. */
  lemma HeadersFound(rawLines: seq<string>)
    ensures forall i :: 0 <= i < |HeaderLines(rawLines)| ==> FirstIndex(rawLines, HeaderLines(rawLines)[i]) != -1
  {
    FilterSelects(rawLines, HasHeaderMarker);
    IndicesWhereListed(rawLines, HasHeaderMarker);
  }

  /** The selected elements are pairwise different. */
  predicate DistinctSelected(xs: seq<string>, p: string -> bool) {
    var selected := Filter(xs, p);
    forall k, l :: 0 <= k < l < |selected| ==> selected[k] != selected[l]
  }

  /** The header texts are pairwise different. */
  predicate DistinctHeaders(rawLines: seq<string>) {
    DistinctSelected(rawLines, HasHeaderMarker)
  }

  /** When the selected elements are pairwise different, the first position
      holding selected element `i` is its own position. */
  lemma DistinctSelectedFound(xs: seq<string>, p: string -> bool, i: nat)
    requires DistinctSelected(xs, p) && i < |Filter(xs, p)|
    ensures |IndicesWhere(xs, p)| == |Filter(xs, p)|
    ensures FirstIndex(xs, Filter(xs, p)[i]) == IndicesWhere(xs, p)[i]
  {
    var ix := IndicesWhere(xs, p);
    FilterSelects(xs, p);
    IndicesWhereListed(xs, p);
    assert xs[ix[i]] == Filter(xs, p)[i];
  }

  /** Between the positions of selected elements `i` and `i + 1` no element
      is selected. */
  lemma SelectedBetween(xs: seq<string>, p: string -> bool, i: nat)
    requires i + 1 < |IndicesWhere(xs, p)|
    ensures var ix := IndicesWhere(xs, p);
      ix[i] < ix[i + 1] && forall j :: ix[i] < j < ix[i + 1] ==> !p(xs[j])
  {
    IndicesWhereListed(xs, p);
  }

  /** With pairwise different header texts, segment `i` runs from header
      line `i` up to header line `i + 1`, with no header line in between. */
  lemma DistinctSegmentAt(rawLines: seq<string>, i: nat)
    requires DistinctHeaders(rawLines) && i + 1 < |HeaderLines(rawLines)|
    ensures var ix := IndicesWhere(rawLines, HasHeaderMarker);
      && |ix| == |HeaderLines(rawLines)| && ix[i] < ix[i + 1]
      && SegmentAt(rawLines, HeaderLines(rawLines), i) == Success(rawLines[ix[i]..ix[i + 1]])
      && forall j :: ix[i] < j < ix[i + 1] ==> !HasHeaderMarker(rawLines[j])
  {
    DistinctSelectedFound(rawLines, HasHeaderMarker, i);
    DistinctSelectedFound(rawLines, HasHeaderMarker, i + 1);
    SelectedBetween(rawLines, HasHeaderMarker, i);
  }

  /** A segment that is a slice of header line `i` up to header line `i + 1`
      starts with header `i` and holds no other header line. */
  predicate IsHeaderSegment(rawLines: seq<string>, i: nat, segment: seq<string>) {
    var headers := HeaderLines(rawLines);
    var ix := IndicesWhere(rawLines, HasHeaderMarker);
    && i + 1 < |ix| && ix[i] < ix[i + 1] <= |rawLines| && i < |headers|
    && segment == rawLines[ix[i]..ix[i + 1]]
    && segment[0] == headers[i]
    && forall k :: 0 < k < |segment| ==> !HasHeaderMarker(segment[k])
  }

  /** With pairwise different header texts nothing throws, there is one
      segment per header but the last, and segment `i` runs from header line
      `i` up to header line `i + 1`. */
  lemma DistinctHeaderSegments(rawLines: seq<string>)
    requires DistinctHeaders(rawLines)
    ensures Segments(rawLines).Success?
    ensures |Segments(rawLines).value| == SegmentCount(HeaderLines(rawLines))
    ensures forall i :: 0 <= i < |Segments(rawLines).value| ==> IsHeaderSegment(rawLines, i, Segments(rawLines).value[i])
  {
    var headers := HeaderLines(rawLines);
    var ix := IndicesWhere(rawLines, HasHeaderMarker);
    var results := SegmentResults(rawLines, headers);
    FilterSelects(rawLines, HasHeaderMarker);
    IndicesWhereListed(rawLines, HasHeaderMarker);
    forall i | 0 <= i < SegmentCount(headers) ensures results[i].Success? {
      DistinctSegmentAt(rawLines, i);
    }
    CollectSucceeds(results, SegmentCount(headers));
    var segments := Segments(rawLines).value;
    forall i | 0 <= i < |segments| ensures IsHeaderSegment(rawLines, i, segments[i]) {
      DistinctSegmentAt(rawLines, i);
      var segment := segments[i];
      assert segment[0] == rawLines[ix[i]];
      forall k | 0 < k < |segment| ensures !HasHeaderMarker(segment[k]) {
        assert segment[k] == rawLines[ix[i] + k];
      }
    }
  }

  /** The body of the inner loop: copies `rawLines[from..to]` element by
      element into a new array of size `to - from`. */
  method CopySegment(rawLines: array<string>, from: nat, to: nat) returns (currentDef: array<string>)
    requires from <= to <= rawLines.Length
    ensures fresh(currentDef) && currentDef[..] == rawLines[from..to]
  {
    currentDef := new string[to - from];
    for j := from to to
      invariant currentDef[..j - from] == rawLines[from..j]
    {
      currentDef[j - from] := rawLines[j];
      assert currentDef[..j + 1 - from] == currentDef[..j - from] + [rawLines[j]];
    }
    assert currentDef[..to - from] == currentDef[..];
  }

  /** One pass of the loop of Main: find both headers, then copy the lines
      between them. */
  method SegmentFor(rawLines: array<string>, headerLines: seq<string>, i: nat)
    returns (segment: Result<seq<string>, Exception>)
    requires i + 1 < |headerLines|
    ensures segment == SegmentAt(rawLines[..], headerLines, i)
  {
    var header := headerLines[i];
    var nextHeader := headerLines[i + 1];
    var headerIdx := GetFirstMatchingIndex(rawLines, header);
    var nextHeaderIdx := GetFirstMatchingIndex(rawLines, nextHeader);
    if headerIdx == -1 || nextHeaderIdx == -1 {
      return Failure(InvalidOperation(""));
    }
    if nextHeaderIdx - headerIdx < 0 {
      return Failure(Overflow);
    }
    var currentDef := CopySegment(rawLines, headerIdx, nextHeaderIdx);
    return Success(currentDef[..]);
  }

  /** The loop of Main over consecutive header pairs, `i < headerLines.Length - 1`.
      The model returns the arrays it builds (the source discards them). */
  method SegmentHeaders(rawLines: array<string>) returns (r: Result<seq<seq<string>>, Exception>)
    ensures r == Segments(rawLines[..])
  {
    var headerLines := HeaderLines(rawLines[..]);
    ghost var results := SegmentResults(rawLines[..], headerLines);
    var defs: seq<seq<string>> := [];
    for i := 0 to SegmentCount(headerLines)
      invariant CollectUpTo(results, i) == Success(defs)
    {
      var segment := SegmentFor(rawLines, headerLines, i);
      if segment.Failure? {
        CollectStepFailure(results, i, defs);
        CollectFailurePersists(results, i + 1, |results|);
        return Failure(segment.error);
      }
      CollectStep(results, i, defs);
      defs := defs + [segment.value];
    }
    return Success(defs);
  }
}
