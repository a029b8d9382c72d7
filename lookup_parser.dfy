/** The phonetic index of the Raven Rock dictionary: the filter that drops the
    letter headings, and the parser that turns the remaining lines into one
    record per English headword, each listing where the word is found. */
module LookupParser {
  import opened Wrappers
  import opened NetStrings
  import opened Sequences
  import RavenRockParser

  /** One place an English headword is found: the page, and the Cherokee word
      in syllabary and in romanized spelling. */
  datatype LookupReference = LookupReference(page: int, syllabary: string, romanized: string)

  /** An English headword and its references, in textual order. */
  datatype LookupEntry = LookupEntry(english: string, references: seq<LookupReference>)

  // ---------------------------------------------------------------------------
  // Header filter

  /** The pattern `.*:.*|.*\).*` matches somewhere in the line. */
  predicate IsEntryLine(line: string) {
    ':' in line || ')' in line
  }

  /** A heading: neither a colon nor a closing parenthesis, and not the long
      description that starts with "Summer". */
  predicate IsHeaderLine(line: string) {
    !IsEntryLine(line) && !StartsWith(line, "Summer")
  }

  predicate IsKeptLine(line: string) {
    !IsHeaderLine(line)
  }

  /** The (position, line) pairs of the headings among `lines`, in order. */
  function HeaderPairs(lines: seq<string>): (pairs: seq<(int, string)>)
    ensures |pairs| == |IndicesWhere(lines, IsHeaderLine)|
  {
    var ix := IndicesWhere(lines, IsHeaderLine);
    seq(|ix|, k requires 0 <= k < |ix| => (ix[k] as int, lines[ix[k]]))
  }

  /** The positions that occur in a list of pairs. */
  function PairIndices(pairs: seq<(int, string)>): set<int> {
    set p | p in pairs :: p.0
  }

  /** A position is among the heading positions exactly when its line is a heading. */
  lemma HeaderIndicesExact(lines: seq<string>, i: int)
    ensures i in PairIndices(HeaderPairs(lines)) <==> 0 <= i < |lines| && IsHeaderLine(lines[i])
  {
    var ix := IndicesWhere(lines, IsHeaderLine);
    IndicesWhereListed(lines, IsHeaderLine);
    PairIndicesOf(HeaderPairs(lines), ix, lines, i);
  }

  /** A position is among the positions of a list of pairs exactly when it
      is the first component of one of them. */
  lemma PairIndicesOf(pairs: seq<(int, string)>, ix: seq<nat>, lines: seq<string>, i: int)
    requires |pairs| == |ix| && forall k :: 0 <= k < |ix| ==> ix[k] < |lines| && pairs[k] == (ix[k] as int, lines[ix[k]])
    ensures i in PairIndices(pairs) <==> i in ix
  {
    if i in ix {
      var k :| 0 <= k < |ix| && ix[k] == i;
      assert pairs[k] in pairs;
    }
    if i in PairIndices(pairs) {
      var p :| p in pairs && p.0 == i;
      var k :| 0 <= k < |pairs| && pairs[k] == p;
      assert ix[k] == i;
    }
  }

  /** RemoveHeaderLines: the first loop collects the headings with their
      positions, the second keeps every line whose position is not among them. */
  method RemoveHeaderLines(lines: seq<string>) returns (kept: seq<string>)
    ensures kept == Filter(lines, IsKeptLine)
  {
    var possibleHeaders: seq<(int, string)> := [];
    for i := 0 to |lines|
      invariant possibleHeaders == HeaderPairs(lines[..i])
    {
      var currentLine := lines[i];
      assert lines[..i + 1] == lines[..i] + [currentLine];
      IndicesWhereSnoc(lines[..i], currentLine, IsHeaderLine);
      if !IsEntryLine(currentLine) && !StartsWith(currentLine, "Summer") {
        possibleHeaders := possibleHeaders + [(i, currentLine)];
      }
    }
    assert lines[..|lines|] == lines;
    var headerIndices := PairIndices(possibleHeaders);
    kept := [];
    for idx := 0 to |lines|
      invariant kept == Filter(lines[..idx], IsKeptLine)
    {
      assert lines[..idx + 1] == lines[..idx] + [lines[idx]];
      FilterSnoc(lines[..idx], lines[idx], IsKeptLine);
      HeaderIndicesExact(lines, idx);
      if idx !in headerIndices {
        kept := kept + [lines[idx]];
      }
    }
    assert lines[..|lines|] == lines;
  }

  /** The filter keeps exactly the lines that contain `:` or `)` or start with
      "Summer", in their order, and never lengthens the input. */
  lemma KeptLinesExact(lines: seq<string>)
    ensures |Filter(lines, IsKeptLine)| <= |lines|
    ensures ListsIndicesWhere(lines, IsKeptLine, IndicesWhere(lines, IsKeptLine))
    ensures |Filter(lines, IsKeptLine)| == |IndicesWhere(lines, IsKeptLine)|
    ensures forall k :: 0 <= k < |Filter(lines, IsKeptLine)| ==>
      Filter(lines, IsKeptLine)[k] == lines[IndicesWhere(lines, IsKeptLine)[k]]
    ensures forall i :: 0 <= i < |lines| ==>
      (IsKeptLine(lines[i]) <==> ':' in lines[i] || ')' in lines[i] || StartsWith(lines[i], "Summer"))
  {
    FilterBound(lines, IsKeptLine);
    FilterSelects(lines, IsKeptLine);
    IndicesWhereListed(lines, IsKeptLine);
  }

  // ---------------------------------------------------------------------------
  // End lines

  /** `s` ends in a digit immediately followed by `)`. */
  predicate EndsInPageClose(s: string) {
    |s| >= 2 && s[|s| - 1] == ')' && IsAsciiDigit(s[|s| - 2])
  }

  /** The pattern `[0-9]+\)$`, whose `$` matches at the very end or just before
      a final line feed. */
  predicate IsEndLine(line: string) {
    || EndsInPageClose(line)
    || (|line| > 0 && line[|line| - 1] == '\n' && EndsInPageClose(line[..|line| - 1]))
  }

  /** The positions of the end lines, in increasing order. */
  function EndLines(lines: seq<string>): seq<nat> {
    IndicesWhere(lines, IsEndLine)
  }

  /** The first loop of ParseLookupLines. */
  method FindEndLines(lines: seq<string>) returns (endLineIndices: seq<nat>)
    ensures endLineIndices == EndLines(lines)
  {
    endLineIndices := [];
    for i := 0 to |lines|
      invariant endLineIndices == IndicesWhere(lines[..i], IsEndLine)
    {
      assert lines[..i + 1] == lines[..i] + [lines[i]];
      IndicesWhereSnoc(lines[..i], lines[i], IsEndLine);
      if IsEndLine(lines[i]) {
        endLineIndices := endLineIndices + [i];
      }
    }
    assert lines[..|lines|] == lines;
  }

  /** Positions strictly increasing and below `total`. */
  predicate Ascending(ends: seq<nat>, total: nat) {
    && (forall k :: 0 <= k < |ends| ==> ends[k] < total)
    && (forall k, l :: 0 <= k < l < |ends| ==> ends[k] < ends[l])
  }

  /** The end lines are ascending positions of lines ending in digits and `)`,
      and every such line is one of them. */
  lemma EndLinesExact(lines: seq<string>)
    ensures Ascending(EndLines(lines), |lines|)
    ensures forall k :: 0 <= k < |EndLines(lines)| ==> IsEndLine(lines[EndLines(lines)[k]])
    ensures forall i :: 0 <= i < |lines| && IsEndLine(lines[i]) ==> i in EndLines(lines)
  {
    IndicesWhereListed(lines, IsEndLine);
  }

  /** Two typical end lines and two lines that are not. */
  lemma EndLineExamples()
    ensures IsEndLine("Alone: x [uwasa] pg 64)")
    ensures IsEndLine("pg 74)\n")
    ensures !IsEndLine("Being carried by it (a liquid): x [gantsvsdiha]")
    ensures !IsEndLine("(pg)")
  {
  }

  // ---------------------------------------------------------------------------
  // References

  /** The page: the second space-separated token once `(` and `)` are trimmed
      from both ends, read by Int32.Parse; indexing a missing second token throws. */
  function PageOf(text: string): (r: Result<int, Exception>)
    ensures r.Failure? ==> r.error == IndexOutOfRange || r.error == Format || r.error == Overflow
  {
    var tokens := SplitNonEmpty(TrimParentheses(text), ' ');
    if |tokens| < 2 then Failure(IndexOutOfRange) else ParseInt32(tokens[1])
  }

  /** One comma-separated reference: the syllabary before the first `[`, the
      romanized text from after `[` through the first `]` (Substring(left + 1,
      right - left) ends after the bracket), and the page after it. */
  function ParseReference(raw: string): (r: Result<LookupReference, Exception>)
    ensures r.Failure? ==>
      r.error == ArgumentOutOfRange || r.error == IndexOutOfRange || r.error == Format || r.error == Overflow
  {
    ReferenceBetween(raw, IndexOfChar(raw, '['), IndexOfChar(raw, ']'))
  }

  /** The cutting of ParseReference once the brackets have been searched for. */
  function ReferenceBetween(raw: string, leftBracket: int, rightBracket: int): Result<LookupReference, Exception> {
    var syllabary :- Slice(raw, 0, leftBracket);
    var romanized :- Slice(raw, leftBracket + 1, leftBracket + 1 + (rightBracket - leftBracket));
    var afterBracket :- Slice(raw, rightBracket + 1, |raw|);
    var page :- PageOf(afterBracket);
    Success(LookupReference(page, Trim(syllabary), Trim(romanized)))
  }

  /** With the first `[` before the first `]`, the reference is cut at those two
      positions, and only the page can fail. */
  lemma ReferenceAt(raw: string, lb: int, rb: int)
    requires FirstAt(raw, '[', lb) && FirstAt(raw, ']', rb) && lb < rb
    ensures ParseReference(raw).Success? == PageOf(raw[rb + 1..]).Success?
    ensures ParseReference(raw).Failure? ==> ParseReference(raw).error == PageOf(raw[rb + 1..]).error
    ensures ParseReference(raw).Success? ==>
      ParseReference(raw).value == LookupReference(PageOf(raw[rb + 1..]).value, Trim(raw[..lb]), Trim(raw[lb + 1..rb + 1]))
  {
    IndexOfCharIs(raw, '[', lb);
    IndexOfCharIs(raw, ']', rb);
    ReferenceBetweenAt(raw, lb, rb);
  }

  lemma ReferenceBetweenAt(raw: string, lb: int, rb: int)
    requires 0 <= lb < rb < |raw|
    ensures ReferenceBetween(raw, lb, rb).Success? == PageOf(raw[rb + 1..]).Success?
    ensures ReferenceBetween(raw, lb, rb).Failure? ==> ReferenceBetween(raw, lb, rb).error == PageOf(raw[rb + 1..]).error
    ensures ReferenceBetween(raw, lb, rb).Success? ==>
      ReferenceBetween(raw, lb, rb).value == LookupReference(PageOf(raw[rb + 1..]).value, Trim(raw[..lb]), Trim(raw[lb + 1..rb + 1]))
  {
    assert raw[0..lb] == raw[..lb] && raw[rb + 1..|raw|] == raw[rb + 1..];
    assert Slice(raw, 0, lb) == Success(raw[..lb]);
    assert Slice(raw, lb + 1, lb + 1 + (rb - lb)) == Success(raw[lb + 1..rb + 1]);
    assert Slice(raw, rb + 1, |raw|) == Success(raw[rb + 1..]);
  }

  /** A reference written `pre[mid]post`: the syllabary is `pre` trimmed, the
      romanized text is `mid` trimmed at the start and still followed by its `]`,
      and the page comes from `post`. */
  lemma ReferenceDecompose(pre: string, mid: string, post: string)
    requires '[' !in pre && ']' !in pre && ']' !in mid
    ensures var r := ParseReference(pre + "[" + mid + "]" + post);
      && (r.Success? <==> PageOf(post).Success?)
      && (r.Success? ==> r.value == LookupReference(PageOf(post).value, Trim(pre), TrimStart(mid) + "]"))
  {
    var raw := pre + "[" + mid + "]" + post;
    BracketsOf(pre, mid, post);
    ReferenceAt(raw, |pre|, |pre| + 1 + |mid|);
    TrimWhereKeptLast(mid, ']', IsWhiteSpace);
  }

  /** Where the brackets of `pre[mid]post` are, and what lies around them. */
  lemma BracketsOf(pre: string, mid: string, post: string)
    requires '[' !in pre && ']' !in pre && ']' !in mid
    ensures var raw := pre + "[" + mid + "]" + post;
      var lb := |pre|;
      var rb := |pre| + 1 + |mid|;
      && FirstAt(raw, '[', lb) && FirstAt(raw, ']', rb) && lb < rb
      && raw[..lb] == pre && raw[lb + 1..rb + 1] == mid + "]" && raw[rb + 1..] == post
  {
    var raw := pre + "[" + mid + "]" + post;
    var lb := |pre|;
    var rb := |pre| + 1 + |mid|;
    assert raw[..lb] == pre && raw[lb + 1..rb + 1] == mid + "]" && raw[rb + 1..] == post;
    assert raw[lb] == '[' && raw[rb] == ']';
    assert raw[..rb] == pre + "[" + mid;
  }

  /** The romanized text keeps its closing bracket, so it is never the bare
      trimmed text between the brackets that the unit tests expect. */
  lemma RomanizedKeepsBracket(pre: string, mid: string, post: string)
    requires '[' !in pre && ']' !in pre && ']' !in mid
    requires ParseReference(pre + "[" + mid + "]" + post).Success?
    ensures var romanized := ParseReference(pre + "[" + mid + "]" + post).value.romanized;
      |romanized| > 0 && romanized[|romanized| - 1] == ']' && romanized != Trim(mid)
  {
    ReferenceDecompose(pre, mid, post);
  }

  /** A missing bracket, or a `]` before the first `[`, makes Substring throw. */
  lemma ReferenceBracketErrors(raw: string)
    requires '[' !in raw || ']' !in raw || IndexOfChar(raw, ']') < IndexOfChar(raw, '[')
    ensures ParseReference(raw) == Failure(ArgumentOutOfRange)
  {
  }

  /** After the `]`, a space, a word, a space, the number and `)`: the number is
      the page, whether the word is `pg` or `(pg`. */
  lemma PageSecondToken(word: string, num: string)
    requires word != "" && num != "" && ' ' !in word && ' ' !in num && !IsParenthesis(num[|num| - 1])
    ensures PageOf(" " + word + " " + num + ")") == ParseInt32(num)
  {
    PageTextTrimmed(" " + word + " " + num);
    PageTextSplit(word, num);
    PageOfTokens(" " + word + " " + num + ")", [word, num]);
  }

  /** A page token that is not an integer makes Int32.Parse throw FormatException. */
  lemma PageNotInteger(word: string, num: string, k: nat)
    requires word != "" && num != "" && ' ' !in word && ' ' !in num && !IsParenthesis(num[|num| - 1])
    requires TrimWhere(num, IsNumberWhite) == num
    requires k < |num| && !IsAsciiDigit(num[k]) && (k == 0 ==> num[0] != '-' && num[0] != '+')
    ensures PageOf(" " + word + " " + num + ")") == Failure(Format)
  {
    PageSecondToken(word, num);
    ParseInt32NonDigit(num, k);
  }

  /** Nothing catches that exception: the whole reference throws it. */
  lemma ReferenceNotInteger(pre: string, mid: string, word: string, num: string, k: nat)
    requires '[' !in pre && ']' !in pre && ']' !in mid
    requires word != "" && num != "" && ' ' !in word && ' ' !in num && !IsParenthesis(num[|num| - 1])
    requires TrimWhere(num, IsNumberWhite) == num
    requires k < |num| && !IsAsciiDigit(num[k]) && (k == 0 ==> num[0] != '-' && num[0] != '+')
    ensures ParseReference(pre + "[" + mid + "]" + (" " + word + " " + num + ")")) == Failure(Format)
  {
    var post := " " + word + " " + num + ")";
    PageNotInteger(word, num, k);
    BracketsOf(pre, mid, post);
    ReferenceAt(pre + "[" + mid + "]" + post, |pre|, |pre| + 1 + |mid|);
  }

  /** Only the closing parenthesis is trimmed from a page text that starts with a space. */
  lemma PageTextTrimmed(inner: string)
    requires |inner| > 0 && inner[0] == ' ' && !IsParenthesis(inner[|inner| - 1])
    ensures TrimParentheses(inner + ")") == inner
  {
    TrimWhereAppend(inner, ')', IsParenthesis);
    TrimWhereFixed(inner, IsParenthesis);
  }

  /** A space, a word, a space and a number split into the word and the number. */
  lemma PageTextSplit(word: string, num: string)
    requires word != "" && num != "" && ' ' !in word && ' ' !in num
    ensures SplitNonEmpty(" " + word + " " + num, ' ') == [word, num]
  {
    assert " " + word + " " + num == [' '] + (word + [' '] + num);
    SplitNonEmptyLeading(word + [' '] + num, ' ');
    SplitNonEmptyPair(word, ' ', num);
  }

  /** The page is read from the second token. */
  lemma PageOfTokens(text: string, tokens: seq<string>)
    requires SplitNonEmpty(TrimParentheses(text), ' ') == tokens && |tokens| >= 2
    ensures PageOf(text) == ParseInt32(tokens[1])
  {
  }

  // ---------------------------------------------------------------------------
  // Entries

  /** The colon split gives exactly two non-empty pieces. */
  predicate HasTwoColonParts(raw: string) {
    |SplitNonEmpty(raw, ':')| == 2
  }

  /** One mashed entry: skipped (None) unless the colon split gives two pieces,
      otherwise the untrimmed English and one reference per non-empty comma
      piece of the right part; a reference that throws aborts the whole parse. */
  function ParseRawEntry(raw: string): Result<Option<LookupEntry>, Exception> {
    var colonSplit := SplitNonEmpty(raw, ':');
    if |colonSplit| != 2 then Success(None)
    else
      var rawReferences := SplitNonEmpty(colonSplit[1], ',');
      var references :- CollectUpTo(Map(rawReferences, ParseReference), |rawReferences|);
      Success(Some(LookupEntry(colonSplit[0], references)))
  }

  /** An entry written `english:refs` keeps `english` as it is, and has one
      reference per non-empty comma piece of `refs`, in order; it throws exactly
      when one of those references does. */
  lemma EntryDecompose(english: string, refs: string)
    requires english != "" && refs != "" && ':' !in english && ':' !in refs
    ensures var r := ParseRawEntry(english + ":" + refs);
      var pieces := SplitNonEmpty(refs, ',');
      && (r.Success? <==> forall k :: 0 <= k < |pieces| ==> ParseReference(pieces[k]).Success?)
      && (r.Success? ==>
            && r.value.Some?
            && r.value.value.english == english
            && |r.value.value.references| == |pieces|
            && forall k :: 0 <= k < |pieces| ==> ParseReference(pieces[k]) == Success(r.value.value.references[k]))
  {
    SplitNonEmptyPair(english, ':', refs);
    var pieces := SplitNonEmpty(refs, ',');
    var results := Map(pieces, ParseReference);
    CollectSucceeds(results, |pieces|);
    forall k | 0 <= k < |pieces| ensures results[k] == ParseReference(pieces[k]) {
    }
  }

  /** An entry whose colon split does not give two pieces is skipped, never thrown on. */
  lemma EntrySkipped(raw: string)
    requires !HasTwoColonParts(raw)
    ensures ParseRawEntry(raw) == Success(None)
  {
  }

  // ---------------------------------------------------------------------------
  // The whole index

  /** Where entry `i` starts: the first line, or the one after the previous end line. */
  function StartOf(ends: seq<nat>, i: nat): nat
    requires i < |ends|
  {
    if i == 0 then 0 else ends[i - 1] + 1
  }

  /** The lines of entry `i`, from its start through its end line, mashed. */
  function EntryText(lines: seq<string>, ends: seq<nat>, i: nat): string
    requires Ascending(ends, |lines|) && i < |ends|
  {
    RavenRockParser.Mashed(lines[StartOf(ends, i)..ends[i] + 1])
  }

  /** The mashed text of every entry. */
  function EntryTexts(lines: seq<string>, ends: seq<nat>): (texts: seq<string>)
    requires Ascending(ends, |lines|)
    ensures |texts| == |ends|
  {
    seq(|ends|, i requires 0 <= i < |ends| => EntryText(lines, ends, i))
  }

  /** What every entry parses to. */
  function EntryResults(texts: seq<string>): (rs: seq<Result<Option<LookupEntry>, Exception>>)
    ensures |rs| == |texts|
  {
    seq(|texts|, i requires 0 <= i < |texts| => ParseRawEntry(texts[i]))
  }

  predicate IsSome(o: Option<LookupEntry>) {
    o.Some?
  }

  /** `somes` from index 0, then null slots up to length `n`. */
  function PadNone(somes: seq<Option<LookupEntry>>, n: nat): (r: seq<Option<LookupEntry>>)
    requires |somes| <= n
    ensures |r| == n
  {
    seq(n, k requires 0 <= k < n => if k < |somes| then somes[k] else None)
  }

  /** The parsed entries packed from slot 0, with the skipped ones' slots left null at the end. */
  function Packed(entries: seq<Option<LookupEntry>>): (r: seq<Option<LookupEntry>>)
    ensures |r| == |entries|
  {
    FilterBound(entries, IsSome);
    PadNone(Filter(entries, IsSome), |entries|)
  }

  /** The second loop over the end lines `ends`: one slot per end line, the
      parsed entries packed from slot 0, or the exception a reference threw. */
  function TableFrom(lines: seq<string>, ends: seq<nat>): Result<seq<Option<LookupEntry>>, Exception>
    requires Ascending(ends, |lines|)
  {
    var entries :- CollectUpTo(EntryResults(EntryTexts(lines, ends)), |ends|);
    Success(Packed(entries))
  }

  /** ParseLookupLines: the table built from the end lines. */
  function LookupTable(lines: seq<string>): Result<seq<Option<LookupEntry>>, Exception> {
    EndLinesExact(lines);
    TableFrom(lines, EndLines(lines))
  }

  /** A text being kept is the same as its entry parsing to a value. */
  lemma KeptIffSome(texts: seq<string>, entries: seq<Option<LookupEntry>>)
    requires CollectUpTo(EntryResults(texts), |texts|) == Success(entries)
    ensures |entries| == |texts|
    ensures forall i :: 0 <= i < |texts| ==> EntryResults(texts)[i] == Success(entries[i])
    ensures IndicesWhere(entries, IsSome) == IndicesWhere(texts, HasTwoColonParts)
  {
    var results := EntryResults(texts);
    CollectSucceeds(results, |texts|);
    forall i | 0 <= i < |texts| ensures IsSome(entries[i]) <==> HasTwoColonParts(texts[i]) {
      assert results[i] == ParseRawEntry(texts[i]);
    }
    IndicesWhereSame(entries, IsSome, texts, HasTwoColonParts);
  }

  /** Packing the entries parsed from `texts`: the first slots hold, in order,
      the entries of the texts whose colon split gave two pieces, and every
      slot after them is null. */
  lemma PackedSlots(texts: seq<string>, entries: seq<Option<LookupEntry>>, table: seq<Option<LookupEntry>>)
    requires CollectUpTo(EntryResults(texts), |texts|) == Success(entries) && table == Packed(entries)
    ensures var kept := IndicesWhere(texts, HasTwoColonParts);
      && |table| == |texts|
      && (forall k :: 0 <= k < |texts| ==> (table[k].Some? <==> k < |kept|))
      && (forall k :: 0 <= k < |kept| ==> ParseRawEntry(texts[kept[k]]) == Success(table[k]))
  {
    var results := EntryResults(texts);
    var kept := IndicesWhere(texts, HasTwoColonParts);
    KeptIffSome(texts, entries);
    FilterSelects(entries, IsSome);
    FilterBound(entries, IsSome);
    var somes := Filter(entries, IsSome);
    assert table == PadNone(somes, |texts|);
    forall k | 0 <= k < |kept| ensures ParseRawEntry(texts[kept[k]]) == Success(somes[k]) {
      assert results[kept[k]] == ParseRawEntry(texts[kept[k]]);
    }
  }

  /** A table that was built has one slot per end line; the first slots hold,
      in order, the entries whose colon split gave two pieces, and every slot
      after them is null. */
  lemma TableSlots(lines: seq<string>, ends: seq<nat>)
    requires Ascending(ends, |lines|) && TableFrom(lines, ends).Success?
    ensures var table := TableFrom(lines, ends).value;
      var texts := EntryTexts(lines, ends);
      var kept := IndicesWhere(texts, HasTwoColonParts);
      && |table| == |ends|
      && (forall k :: 0 <= k < |ends| ==> (table[k].Some? <==> k < |kept|))
      && (forall k :: 0 <= k < |kept| ==> ParseRawEntry(texts[kept[k]]) == Success(table[k]))
  {
    var texts := EntryTexts(lines, ends);
    var entries := CollectUpTo(EntryResults(texts), |ends|).value;
    PackedSlots(texts, entries, TableFrom(lines, ends).value);
  }

  /** The table is not built exactly when the text of some entry throws, and
      only an entry with two colon pieces can throw. */
  lemma TableFails(lines: seq<string>, ends: seq<nat>)
    requires Ascending(ends, |lines|)
    ensures var texts := EntryTexts(lines, ends);
      TableFrom(lines, ends).Failure? <==> exists i :: 0 <= i < |ends| && ParseRawEntry(texts[i]).Failure?
    ensures forall i :: 0 <= i < |ends| && ParseRawEntry(EntryTexts(lines, ends)[i]).Failure? ==>
      HasTwoColonParts(EntryTexts(lines, ends)[i])
  {
    var texts := EntryTexts(lines, ends);
    var results := EntryResults(texts);
    CollectSucceeds(results, |ends|);
    forall i | 0 <= i < |ends| ensures results[i] == ParseRawEntry(texts[i]) {
    }
  }

  /** Lines without an end line give an empty table; otherwise a table that is
      built has one slot per end line. */
  lemma LookupTableShape(lines: seq<string>)
    ensures EndLines(lines) == [] ==> LookupTable(lines) == Success([])
    ensures LookupTable(lines).Success? ==> |LookupTable(lines).value| == |EndLines(lines)|
  {
    EndLinesExact(lines);
    var ends := EndLines(lines);
    var texts := EntryTexts(lines, ends);
    CollectSucceeds(EntryResults(texts), |ends|);
    if ends == [] {
      assert Packed([]) == [];
    }
  }

  /** Writing one more entry into the first null slot. */
  lemma PadNoneSnoc(somes: seq<Option<LookupEntry>>, e: Option<LookupEntry>, n: nat)
    requires |somes| < n
    ensures PadNone(somes + [e], n) == PadNone(somes, n)[|somes| := e]
  {
  }

  /** The body of the loop for one mashed entry: the colon split, then the
      references of the right part. */
  method ParseEntryText(rawEntry: string) returns (r: Result<Option<LookupEntry>, Exception>)
    ensures r == ParseRawEntry(rawEntry)
  {
    var colonSplit := SplitNonEmpty(rawEntry, ':');
    if |colonSplit| != 2 {
      return Success(None);
    }
    var english := colonSplit[0];
    var rawReferences := SplitNonEmpty(colonSplit[1], ',');
    var lookupReferences := CollectEach(rawReferences, ParseReference);
    if lookupReferences.Failure? {
      return Failure(lookupReferences.error);
    }
    return Success(Some(LookupEntry(english, lookupReferences.value)));
  }

  /** The lines of entry `i`, from `startLine` through its end line, mashed and parsed. */
  method ParseEntryAt(lines: seq<string>, ends: seq<nat>, i: nat, startLine: nat)
    returns (entry: Result<Option<LookupEntry>, Exception>)
    requires Ascending(ends, |lines|) && i < |ends| && startLine == StartOf(ends, i)
    ensures entry == EntryResults(EntryTexts(lines, ends))[i]
  {
    var rawEntry := RavenRockParser.MashLines(lines[startLine..ends[i] + 1]);
    entry := ParseEntryText(rawEntry);
  }

  /** `if (entry != null) parsed[parsedInsertIdx++] = entry;` */
  method PlaceEntry(parsed: array<Option<LookupEntry>>, parsedInsertIdx: nat, ghost somes: seq<Option<LookupEntry>>,
                    entry: Option<LookupEntry>) returns (nextInsertIdx: nat)
    requires parsedInsertIdx == |somes| && (entry.Some? ==> |somes| < parsed.Length) && |somes| <= parsed.Length
    requires parsed[..] == PadNone(somes, parsed.Length)
    modifies parsed
    ensures var placed := somes + (if IsSome(entry) then [entry] else []);
      nextInsertIdx == |placed| && parsed[..] == PadNone(placed, parsed.Length)
  {
    nextInsertIdx := parsedInsertIdx;
    if entry.Some? {
      PadNoneSnoc(somes, entry, parsed.Length);
      parsed[parsedInsertIdx] := entry;
      nextInsertIdx := parsedInsertIdx + 1;
    }
  }

  /** ParseLookupLines: find the end lines, then fill the table. */
  method ParseLookupLines(lines: seq<string>) returns (r: Result<seq<Option<LookupEntry>>, Exception>)
    ensures r == LookupTable(lines)
  {
    var endLineIndices := FindEndLines(lines);
    EndLinesExact(lines);
    r := FillTable(lines, endLineIndices);
  }

  /** The second loop of ParseLookupLines: a fixed array with one slot per end
      line, filled through `parsedInsertIdx`, while `startLine` moves past each
      end line. */
  method FillTable(lines: seq<string>, endLineIndices: seq<nat>) returns (r: Result<seq<Option<LookupEntry>>, Exception>)
    requires Ascending(endLineIndices, |lines|)
    ensures r == TableFrom(lines, endLineIndices)
  {
    ghost var results := EntryResults(EntryTexts(lines, endLineIndices));
    ghost var done: seq<Option<LookupEntry>> := [];
    ghost var somes: seq<Option<LookupEntry>> := [];
    var parsedInsertIdx := 0;
    var parsed := new Option<LookupEntry>[|endLineIndices|](_ => None);
    var startLine := 0;
    assert parsed[..] == PadNone([], |endLineIndices|);
    for i := 0 to |endLineIndices|
      invariant i < |endLineIndices| ==> startLine == StartOf(endLineIndices, i)
      invariant |done| == i && CollectUpTo(results, i) == Success(done)
      invariant somes == Filter(done, IsSome) && parsedInsertIdx == |somes| <= i
      invariant parsed[..] == PadNone(somes, |endLineIndices|)
    {
      var endLine := endLineIndices[i];
      var entry := ParseEntryAt(lines, endLineIndices, i, startLine);
      if entry.Failure? {
        CollectStepFailure(results, i, done);
        CollectFailurePersists(results, i + 1, |endLineIndices|);
        return Failure(entry.error);
      }
      CollectStep(results, i, done);
      FilterSnoc(done, entry.value, IsSome);
      parsedInsertIdx := PlaceEntry(parsed, parsedInsertIdx, somes, entry.value);
      somes := somes + (if IsSome(entry.value) then [entry.value] else []);
      done := done + [entry.value];
      startLine := endLine + 1;
    }
    return Success(parsed[..]);
  }
}
