/** The dictionary entry parser of Cherokee/Parsing/RavenRockParser.cs: it finds
    the start line of every entry, cuts the lines into one segment per entry,
    mashes each segment into one string and cuts the fields out of it. A thrown
    exception is a `Failure`; the C# `null` of an unset field is `None`. */
module RavenRockParser {
  import opened Wrappers
  import opened NetStrings
  import opened StringExtensions

  // ---------------------------------------------------------------------------
  // Entries

  /** The part-of-speech tags the parser knows. */
  datatype EntryType = V | N | ADJ | PT

  /** The line where an entry starts, with the type its tag names. */
  datatype StartLine = StartLine(entryType: EntryType, line: nat)

  /** The fields of a noun or adjective entry. */
  datatype Fields = Fields(english: Option<string>, syllabary: Option<string>, romanized: Option<string>)

  /** One conjugated form of a verb. */
  datatype Form = Form(syllabary: string, romanized: string)

  /** A verb entry: the English of its first form and its six forms, each of
      which the dictionary may mark as missing. */
  datatype VerbEntry = VerbEntry(
    english: Option<string>,
    thirdPresent: Option<Form>,
    firstPresent: Option<Form>,
    completive: Option<Form>,
    incompletive: Option<Form>,
    immediate: Option<Form>,
    infinitive: Option<Form>)

  datatype Entry =
    | Noun(noun: Fields)
    | Adjective(adjective: Fields)
    | Verb(verb: VerbEntry)

  // ---------------------------------------------------------------------------
  // Start lines: the pattern `\] \((?<name>[a-z]+)\)`

  predicate IsLowerAscii(c: char) {
    'a' <= c <= 'z'
  }

  predicate AllLowerAscii(s: string) {
    forall k :: 0 <= k < |s| ==> IsLowerAscii(s[k])
  }

  /** The end of the run of lowercase letters that starts at `i`. */
  function LowerRunEnd(s: string, i: nat): (e: nat)
    requires i <= |s|
    ensures i <= e <= |s|
    ensures forall k :: i <= k < e ==> IsLowerAscii(s[k])
    ensures e == |s| || !IsLowerAscii(s[e])
    decreases |s| - i
  {
    if i < |s| && IsLowerAscii(s[i]) then LowerRunEnd(s, i + 1) else i
  }

  /** The pattern matches at `j`: `] (`, one or more lowercase letters, `)`.
      As `)` is not a lowercase letter, the letters are the whole run. */
  predicate MarkerAt(s: string, j: nat) {
    && j + 3 <= |s|
    && s[j..j + 3] == "] ("
    && var e := LowerRunEnd(s, j + 3);
       e > j + 3 && e < |s| && s[e] == ')'
  }

  /** The leftmost position at or after `j` where the pattern matches. */
  function FirstMarkerFrom(s: string, j: nat): (r: Option<nat>)
    ensures r.Some? ==> j <= r.value < |s| && MarkerAt(s, r.value)
    ensures r.Some? ==> forall k :: j <= k < r.value ==> !MarkerAt(s, k)
    ensures r.None? ==> forall k :: j <= k < |s| ==> !MarkerAt(s, k)
    decreases |s| - j
  {
    if j >= |s| then None
    else if MarkerAt(s, j) then Some(j)
    else FirstMarkerFrom(s, j + 1)
  }

  /** The `name` group of the first match in a line, if the line matches. */
  function StartTag(line: string): (r: Option<string>)
    ensures r.Some? ==> |r.value| > 0 && AllLowerAscii(r.value)
    ensures r.Some? ==> Contains(line, "] (")
  {
    match FirstMarkerFrom(line, 0)
    case None => None
    case Some(j) =>
      ContainsIff(line, "] (", j);
      Some(line[j + 3..LowerRunEnd(line, j + 3)])
  }

  /** char.ToUpperInvariant on the ASCII letters a captured tag is made of. */
  function UpperInvariant(c: char): char {
    if IsLowerAscii(c) then (c as int - 32) as char else c
  }

  function ToUpperInvariant(s: string): string {
    seq(|s|, k requires 0 <= k < |s| => UpperInvariant(s[k]))
  }

  /** Enum.TryParse<EntryType> of the uppercased tag. */
  function EntryTypeOf(tag: string): Option<EntryType> {
    var upper := ToUpperInvariant(tag);
    if upper == "V" then Some(V)
    else if upper == "N" then Some(N)
    else if upper == "ADJ" then Some(ADJ)
    else if upper == "PT" then Some(PT)
    else None
  }

  /** On a lowercase tag, exactly `v`, `n`, `adj` and `pt` are recognized. */
  lemma EntryTypeOfLower(tag: string)
    requires AllLowerAscii(tag)
    ensures EntryTypeOf(tag) ==
      if tag == "v" then Some(V)
      else if tag == "n" then Some(N)
      else if tag == "adj" then Some(ADJ)
      else if tag == "pt" then Some(PT)
      else None
  {
    var upper := ToUpperInvariant(tag);
    forall k | 0 <= k < |tag| ensures upper[k] as int == tag[k] as int - 32 {
      assert IsLowerAscii(tag[k]);
    }
  }

  /** What the first loop makes of one line. */
  datatype LineKind =
    | Plain
    | Start(entryType: EntryType)
    | Unrecognized(tag: string)

  function Classify(line: string): (k: LineKind)
    ensures k.Plain? <==> StartTag(line).None?
    ensures k.Unrecognized? ==> StartTag(line) == Some(k.tag)
  {
    match StartTag(line)
    case None => Plain
    case Some(tag) =>
      match EntryTypeOf(tag)
      case None => Unrecognized(tag)
      case Some(t) => Start(t)
  }

  /** The kind of every line, in order. */
  function Kinds(lines: seq<string>): (kinds: seq<LineKind>)
    ensures |kinds| == |lines|
  {
    seq(|lines|, i requires 0 <= i < |lines| => Classify(lines[i]))
  }

  /** The exception the first loop throws for a tag it does not know. */
  function UnrecognizedEntryType(tag: string): Exception {
    InvalidOperation("Unrecognized entry type `" + tag + "`")
  }

  /** The first loop over the first `n` lines: the start lines found, or the
      exception raised at the first unrecognized tag. */
  function StartLinesUpTo(kinds: seq<LineKind>, n: nat): Result<seq<StartLine>, Exception>
    requires n <= |kinds|
  {
    if n == 0 then Success([])
    else
      var found :- StartLinesUpTo(kinds, n - 1);
      match kinds[n - 1]
      case Plain => Success(found)
      case Unrecognized(tag) => Failure(UnrecognizedEntryType(tag))
      case Start(t) => Success(found + [StartLine(t, n - 1)])
  }

  /** Once the first loop has thrown, looking at more lines changes nothing. */
  lemma {:induction false} StartLinesFailurePersists(kinds: seq<LineKind>, n: nat, m: nat)
    requires n <= m <= |kinds| && StartLinesUpTo(kinds, n).Failure?
    ensures StartLinesUpTo(kinds, m) == StartLinesUpTo(kinds, n)
    decreases m
  {
    if m > n {
      StartLinesFailurePersists(kinds, n, m - 1);
    }
  }

  /** The start lines are below `total`, in strictly increasing order. */
  predicate WellFormedStarts(found: seq<StartLine>, total: nat) {
    && (forall k :: 0 <= k < |found| ==> found[k].line < total)
    && (forall k, l :: 0 <= k < l < |found| ==> found[k].line < found[l].line)
  }

  /** `found` lists, in order, exactly the start lines among the first `n`
      lines, each with the type its tag names. */
  predicate ListsStartLines(kinds: seq<LineKind>, n: nat, found: seq<StartLine>)
    requires n <= |kinds|
  {
    && WellFormedStarts(found, n)
    && (forall k :: 0 <= k < |found| ==> kinds[found[k].line] == Start(found[k].entryType))
    && (forall i :: 0 <= i < n && kinds[i].Start? ==> exists k :: 0 <= k < |found| && found[k].line == i)
  }

  /** A start line at position `n` extends the list by one. */
  lemma StartLinesListedStep(kinds: seq<LineKind>, n: nat, prev: seq<StartLine>, found: seq<StartLine>)
    requires n < |kinds| && kinds[n].Start? && ListsStartLines(kinds, n, prev)
    requires found == prev + [StartLine(kinds[n].entryType, n)]
    ensures ListsStartLines(kinds, n + 1, found)
  {
    forall i | 0 <= i < n + 1 && kinds[i].Start?
      ensures exists k :: 0 <= k < |found| && found[k].line == i
    {
      if i == n {
        assert found[|found| - 1].line == i;
      } else {
        var k :| 0 <= k < |prev| && prev[k].line == i;
        assert found[k].line == i;
      }
    }
  }

  /** Any other line at position `n` leaves the list as it is. */
  lemma StartLinesListedSkip(kinds: seq<LineKind>, n: nat, found: seq<StartLine>)
    requires n < |kinds| && !kinds[n].Start? && ListsStartLines(kinds, n, found)
    ensures ListsStartLines(kinds, n + 1, found)
  {
  }

  /** When the first loop finishes, it has found every start line, in order. */
  lemma {:induction false} StartLinesListed(kinds: seq<LineKind>, n: nat)
    requires n <= |kinds| && StartLinesUpTo(kinds, n).Success?
    ensures ListsStartLines(kinds, n, StartLinesUpTo(kinds, n).value)
    decreases n
  {
    if n > 0 {
      StartLinesListed(kinds, n - 1);
      var prev := StartLinesUpTo(kinds, n - 1).value;
      if kinds[n - 1].Start? {
        StartLinesListedStep(kinds, n - 1, prev, StartLinesUpTo(kinds, n).value);
      } else {
        assert StartLinesUpTo(kinds, n).value == prev;
        StartLinesListedSkip(kinds, n - 1, StartLinesUpTo(kinds, n).value);
      }
    }
  }

  /** The first loop throws exactly when some line has an unrecognized tag,
      and what it throws is InvalidOperationException. */
  lemma {:induction false} StartLinesFailIff(kinds: seq<LineKind>, n: nat)
    requires n <= |kinds|
    ensures StartLinesUpTo(kinds, n).Failure? <==> exists i :: 0 <= i < n && kinds[i].Unrecognized?
    ensures StartLinesUpTo(kinds, n).Failure? ==> StartLinesUpTo(kinds, n).error.InvalidOperation?
    decreases n
  {
    if n > 0 {
      StartLinesFailIff(kinds, n - 1);
      if kinds[n - 1].Unrecognized? {
        assert 0 <= n - 1 < n && kinds[n - 1].Unrecognized?;
      }
      if exists i :: 0 <= i < n && kinds[i].Unrecognized? {
        var i :| 0 <= i < n && kinds[i].Unrecognized?;
        if i < n - 1 {
          assert StartLinesUpTo(kinds, n - 1).Failure?;
        }
      }
    }
  }

  // ---------------------------------------------------------------------------
  // Segments

  /** Where the segment of start line `i` ends: at the next start line, or at
      the end of the input for the last one. */
  function SegmentEnd(found: seq<StartLine>, i: nat, total: nat): nat
    requires i < |found|
  {
    if i == |found| - 1 then total else found[i + 1].line
  }

  /** The lines of entry `i`, the half-open range from its start line on. */
  function Segment(lines: seq<string>, found: seq<StartLine>, i: nat): seq<string>
    requires WellFormedStarts(found, |lines|) && i < |found|
  {
    lines[found[i].line..SegmentEnd(found, i, |lines|)]
  }

  function Concat(segments: seq<seq<string>>): seq<string> {
    if |segments| == 0 then [] else segments[0] + Concat(segments[1..])
  }

  /** The segments from `i` on, in order. */
  function SegmentsFrom(lines: seq<string>, found: seq<StartLine>, i: nat): seq<seq<string>>
    requires WellFormedStarts(found, |lines|) && i <= |found|
    decreases |found| - i
  {
    if i == |found| then [] else [Segment(lines, found, i)] + SegmentsFrom(lines, found, i + 1)
  }

  /** The segments cover the input from segment `i`'s start line to the end,
      without gaps or overlaps. */
  lemma {:induction false} SegmentsPartition(lines: seq<string>, found: seq<StartLine>, i: nat)
    requires WellFormedStarts(found, |lines|) && i < |found|
    ensures Concat(SegmentsFrom(lines, found, i)) == lines[found[i].line..]
    decreases |found| - i
  {
    var segments := SegmentsFrom(lines, found, i);
    assert segments[1..] == SegmentsFrom(lines, found, i + 1);
    if i < |found| - 1 {
      SegmentsPartition(lines, found, i + 1);
      assert lines[found[i].line..] == Segment(lines, found, i) + lines[found[i + 1].line..];
    } else {
      assert SegmentsFrom(lines, found, i + 1) == [];
    }
  }

  // ---------------------------------------------------------------------------
  // Mashing a segment into one string

  /** What the StringBuilder holds after `line + " "` is appended for each line. */
  function SpaceTerminated(lines: seq<string>): string {
    if |lines| == 0 then "" else lines[0] + " " + SpaceTerminated(lines[1..])
  }

  /** The builder's text is the lines joined by single spaces, plus one more space. */
  lemma {:induction false} SpaceTerminatedJoin(lines: seq<string>)
    requires |lines| > 0
    ensures SpaceTerminated(lines) == Join(lines, " ") + " "
  {
    if |lines| > 1 {
      SpaceTerminatedJoin(lines[1..]);
    } else {
      assert SpaceTerminated(lines[1..]) == "";
    }
  }

  /** The mashed text of a segment. */
  function Mashed(lines: seq<string>): string {
    Trim(Join(lines, " "))
  }

  /** MashLines: the lines joined by single spaces, with outer white space trimmed. */
  method MashLines(lines: seq<string>) returns (mashed: string)
    ensures mashed == Trim(Join(lines, " "))
  {
    var bilder := "";
    for i := 0 to |lines|
      invariant bilder + SpaceTerminated(lines[i..]) == SpaceTerminated(lines)
    {
      var rest := lines[i + 1..];
      assert lines[i..][1..] == rest;
      assert SpaceTerminated(lines[i..]) == lines[i] + " " + SpaceTerminated(rest);
      assert bilder + SpaceTerminated(lines[i..]) == (bilder + lines[i] + " ") + SpaceTerminated(rest);
      bilder := bilder + lines[i] + " ";
    }
    assert SpaceTerminated(lines[|lines|..]) == "";
    if |lines| > 0 {
      SpaceTerminatedJoin(lines);
      assert bilder == Join(lines, " ") + [' '];
      TrimWhereAppend(Join(lines, " "), ' ', IsWhiteSpace);
    }
    mashed := Trim(bilder);
  }

  /** Mashing no lines gives "", one line gives that line trimmed, and mashing
      the mash of one line again changes nothing. */
  lemma MashedSmall(line: string)
    ensures Mashed([]) == ""
    ensures Mashed([line]) == Trim(line)
    ensures Mashed([Mashed([line])]) == Mashed([line])
  {
    TrimWhereIdempotent(line, IsWhiteSpace);
  }

  // ---------------------------------------------------------------------------
  // Nouns and adjectives

  /** The three fields cut out of a mashed noun or adjective entry. */
  datatype Extracted = Extracted(english: string, romanized: string, syllabary: string)

  /** english between the first `“` and the first `”`, romanized between the
      first `[` and the first `]`, syllabary before the first `[` with trailing
      white space removed. A range C# rejects throws ArgumentOutOfRange. */
  function ExtractFields(mashed: string): (r: Result<Extracted, Exception>)
    ensures r.Failure? ==> r.error == ArgumentOutOfRange
  {
    var firstOpenQuote := IndexOfChar(mashed, '“');
    var firstCloseQuote := IndexOfChar(mashed, '”');
    var firstLeftBrack := IndexOfChar(mashed, '[');
    var firstRightBrack := IndexOfChar(mashed, ']');
    var english :- Slice(mashed, firstOpenQuote + 1, firstCloseQuote);
    var romanized :- Slice(mashed, firstLeftBrack + 1, firstRightBrack);
    var syllabary :- Slice(mashed, 0, firstLeftBrack);
    Success(Extracted(english, romanized, TrimEnd(syllabary)))
  }

  /** With the first `[` before the first `]` and the first `“` before the
      first `”`, the fields are the texts strictly between them and the
      right-trimmed text before the `[`. */
  lemma ExtractFieldsAt(m: string, lb: int, rb: int, oq: int, cq: int)
    requires FirstAt(m, '[', lb) && FirstAt(m, ']', rb) && FirstAt(m, '“', oq) && FirstAt(m, '”', cq)
    requires lb < rb && oq < cq
    ensures ExtractFields(m) == Success(Extracted(m[oq + 1..cq], m[lb + 1..rb], TrimEnd(m[..lb])))
  {
    IndexOfCharIs(m, '[', lb);
    IndexOfCharIs(m, ']', rb);
    IndexOfCharIs(m, '“', oq);
    IndexOfCharIs(m, '”', cq);
  }

  /** An entry of the shape `SYLLABARY [ROMANIZED] ... “ENGLISH” ...` gives back
      its three parts, whatever follows the closing quote. */
  lemma ExtractFieldsDecompose(syl: string, rom: string, mid: string, eng: string, post: string)
    requires '[' !in syl && ']' !in syl && ']' !in rom
    requires '“' !in syl && '“' !in rom && '“' !in mid
    requires '”' !in syl && '”' !in rom && '”' !in mid && '”' !in eng
    ensures ExtractFields(syl + "[" + rom + "]" + mid + "“" + eng + "”" + post)
         == Success(Extracted(eng, rom, TrimEnd(syl)))
  {
    var m := syl + "[" + rom + "]" + mid + "“" + eng + "”" + post;
    var lb := |syl|;
    var rb := lb + 1 + |rom|;
    var oq := rb + 1 + |mid|;
    var cq := oq + 1 + |eng|;
    assert m[..lb] == syl;
    assert m[..rb] == syl + "[" + rom;
    assert m[..oq] == syl + "[" + rom + "]" + mid;
    assert m[..cq] == syl + "[" + rom + "]" + mid + "“" + eng;
    assert m[lb + 1..rb] == rom;
    assert m[oq + 1..cq] == eng;
    ExtractFieldsAt(m, lb, rb, oq, cq);
  }

  /** Text appended to an entry that has all four delimiters, in order, is ignored.
      (Without an opening quote the English starts at the beginning, and an
      opening quote in the appended text would then move it.) */
  lemma ExtractFieldsIgnoresTrailing(mashed: string, trailing: string)
    requires ExtractFields(mashed).Success? && '“' in mashed
    ensures ExtractFields(mashed + trailing) == ExtractFields(mashed)
  {
    var m := mashed + trailing;
    var lb := IndexOfChar(mashed, '[');
    var rb := IndexOfChar(mashed, ']');
    var oq := IndexOfChar(mashed, '“');
    var cq := IndexOfChar(mashed, '”');
    assert m[..lb] == mashed[..lb] && m[..rb] == mashed[..rb];
    assert m[..oq] == mashed[..oq] && m[..cq] == mashed[..cq];
    assert m[lb + 1..rb] == mashed[lb + 1..rb];
    assert m[oq + 1..cq] == mashed[oq + 1..cq];
    ExtractFieldsAt(mashed, lb, rb, oq, cq);
    ExtractFieldsAt(m, lb, rb, oq, cq);
  }

  function FieldsOf(x: Extracted): Fields {
    Fields(Some(x.english), Some(x.syllabary), Some(x.romanized))
  }

  /** ParseToNounEntry. */
  function ParseToNounEntry(mashed: string): (r: Result<Entry, Exception>)
    ensures r.Success? <==> ExtractFields(mashed).Success?
    ensures r.Failure? ==> r.error == ArgumentOutOfRange
  {
    var x :- ExtractFields(mashed);
    Success(Noun(FieldsOf(x)))
  }

  /** ParseToAdjectiveEntry: the same slicing as for a noun. */
  function ParseToAdjectiveEntry(mashed: string): (r: Result<Entry, Exception>)
    ensures r.Success? <==> ExtractFields(mashed).Success?
    ensures r.Failure? ==> r.error == ArgumentOutOfRange
  {
    var x :- ExtractFields(mashed);
    Success(Adjective(FieldsOf(x)))
  }

  /** With the first `[` before the first `]` and the first `“` before the
      first `”`, a noun's English is the text strictly between the quotes, its
      syllabary the right-trimmed text before the `[`, and its romanized text
      the text strictly between the brackets. */
  lemma NounEntryAt(m: string, lb: int, rb: int, oq: int, cq: int)
    requires FirstAt(m, '[', lb) && FirstAt(m, ']', rb) && FirstAt(m, '“', oq) && FirstAt(m, '”', cq)
    requires lb < rb && oq < cq
    ensures ParseToNounEntry(m) == Success(Noun(Fields(Some(m[oq + 1..cq]), Some(TrimEnd(m[..lb])), Some(m[lb + 1..rb]))))
  {
    ExtractFieldsAt(m, lb, rb, oq, cq);
  }

  /** The same slicing for an adjective. */
  lemma AdjectiveEntryAt(m: string, lb: int, rb: int, oq: int, cq: int)
    requires FirstAt(m, '[', lb) && FirstAt(m, ']', rb) && FirstAt(m, '“', oq) && FirstAt(m, '”', cq)
    requires lb < rb && oq < cq
    ensures ParseToAdjectiveEntry(m) == Success(Adjective(Fields(Some(m[oq + 1..cq]), Some(TrimEnd(m[..lb])), Some(m[lb + 1..rb]))))
  {
    ExtractFieldsAt(m, lb, rb, oq, cq);
  }

  // ---------------------------------------------------------------------------
  // Verbs

  /** The placeholder the dictionary prints for a form it does not give. */
  const MISSING: string := "-----"

  /** The unroll loop on a fragment that contains the placeholder: one
      placeholder per removal of its first occurrence, then the trimmed residue. */
  function UnrollMissing(str: string): (r: seq<string>)
    ensures |r| >= 1
    decreases |str|
  {
    if Contains(str, MISSING) then [MISSING] + UnrollMissing(ReplaceFirstIn(str, MISSING, ""))
    else [Trim(str)]
  }

  /** What is left of a fragment once every placeholder has been removed. */
  function Residue(str: string): (r: string)
    decreases |str|
  {
    if Contains(str, MISSING) then Residue(ReplaceFirstIn(str, MISSING, "")) else str
  }

  lemma ConsParts<T>(x: T, rest: seq<T>, r: seq<T>)
    requires |rest| > 0 && r == [x] + rest
    ensures |r| == |rest| + 1 && r[1..] == rest && r[|r| - 1] == rest[|rest| - 1]
    ensures forall j :: 0 < j < |r| ==> r[j] == rest[j - 1]
  {
  }

  /** The unroll loop ends with a residue free of placeholders, five characters
      shorter per placeholder emitted, and the last form is that residue trimmed. */
  lemma {:induction false} UnrollMissingShape(str: string)
    ensures var r := UnrollMissing(str);
      && (forall j :: 0 <= j < |r| - 1 ==> r[j] == MISSING)
      && r[|r| - 1] == Trim(Residue(str))
      && !Contains(Residue(str), MISSING)
      && |Residue(str)| == |str| - 5 * (|r| - 1)
    decreases |str|
  {
    var r := UnrollMissing(str);
    if Contains(str, MISSING) {
      var next := ReplaceFirstIn(str, MISSING, "");
      assert |next| == |str| - 5;
      var rest := UnrollMissing(next);
      assert r == [MISSING] + rest;
      assert Residue(str) == Residue(next);
      UnrollMissingShape(next);
      ConsParts(MISSING, rest, r);
      assert r[|r| - 1] == Trim(Residue(str));
    } else {
      assert r == [Trim(str)] && Residue(str) == str;
      assert r[|r| - 1] == Trim(Residue(str));
    }
  }

  /** The forms one fragment between closing quotes contributes. */
  function UnrollFragment(str: string): seq<string> {
    if !Contains(str, MISSING) then [str] else UnrollMissing(str)
  }

  /** The forms of a sequence of fragments, in order. */
  function UnrollAll(pieces: seq<string>): seq<string> {
    if |pieces| == 0 then [] else UnrollAll(pieces[..|pieces| - 1]) + UnrollFragment(pieces[|pieces| - 1])
  }

  /** The forms of one more fragment follow those of the fragments before it. */
  lemma UnrollAllStep(pieces: seq<string>, i: nat)
    requires i < |pieces|
    ensures UnrollAll(pieces[..i + 1]) == UnrollAll(pieces[..i]) + UnrollFragment(pieces[i])
  {
    assert pieces[..i + 1][..i] == pieces[..i];
  }

  /** The verb's forms: the mashed text split at closing quotes, empty pieces
      dropped, each piece unrolled. */
  function VerbForms(mashed: string): seq<string> {
    UnrollAll(SplitNonEmpty(mashed, '”'))
  }

  /** A bare placeholder becomes the placeholder and then an empty residue. */
  lemma UnrollFragmentExamples()
    ensures UnrollFragment("ab c ") == ["ab c "]
    ensures UnrollFragment(MISSING) == [MISSING, ""]
  {
    MissingFirstChar("ab c ", MISSING);
    assert OccursAt(MISSING, MISSING, 0);
    assert ReplaceFirstIn(MISSING, MISSING, "") == "";
    assert !Contains("", MISSING);
  }

  /** The fields ProcessLine cuts out of one form. */
  datatype Processed = Processed(syllabary: string, romanized: string, english: string)

  /** ProcessLine: null for the placeholder; otherwise english from after the
      first `“` to the end, romanized between the first `[` and `]`, and
      syllabary before the first `[` with trailing white space removed. */
  function ProcessLine(line: string): (r: Result<Option<Processed>, Exception>)
    ensures r == Success(None) <==> line == MISSING
    ensures r.Failure? ==> r.error == ArgumentOutOfRange
  {
    if line == MISSING then Success(None)
    else
      var firstOpenQuote := IndexOfChar(line, '“');
      var firstLeftBrack := IndexOfChar(line, '[');
      var firstRightBrack := IndexOfChar(line, ']');
      var english :- Slice(line, firstOpenQuote + 1, |line|);
      var romanized :- Slice(line, firstLeftBrack + 1, firstRightBrack);
      var syllabary :- Slice(line, 0, firstLeftBrack);
      Success(Some(Processed(TrimEnd(syllabary), romanized, english)))
  }

  /** A form that is not the placeholder, with its first `[` before its first
      `]`, gives the text between them, the right-trimmed text before the `[`,
      and the text after its first `“`. */
  lemma ProcessLineAt(m: string, lb: int, rb: int, oq: int)
    requires m != MISSING
    requires FirstAt(m, '[', lb) && FirstAt(m, ']', rb) && FirstAt(m, '“', oq) && lb < rb
    ensures ProcessLine(m) == Success(Some(Processed(TrimEnd(m[..lb]), m[lb + 1..rb], m[oq + 1..])))
  {
    IndexOfCharIs(m, '[', lb);
    IndexOfCharIs(m, ']', rb);
    IndexOfCharIs(m, '“', oq);
    assert m[oq + 1..|m|] == m[oq + 1..] && m[0..lb] == m[..lb];
  }

  /** A form `SYLLABARY [ROMANIZED] ... “ENGLISH` gives back its three parts. */
  lemma ProcessLineDecompose(syl: string, rom: string, mid: string, eng: string)
    requires '[' !in syl && ']' !in syl && ']' !in rom
    requires '“' !in syl && '“' !in rom && '“' !in mid
    ensures ProcessLine(syl + "[" + rom + "]" + mid + "“" + eng)
         == Success(Some(Processed(TrimEnd(syl), rom, eng)))
  {
    var m := syl + "[" + rom + "]" + mid + "“" + eng;
    var lb := |syl|;
    var rb := lb + 1 + |rom|;
    var oq := rb + 1 + |mid|;
    assert m[lb] == '[' && '[' !in MISSING;
    assert m[..lb] == syl;
    assert m[..rb] == syl + "[" + rom;
    assert m[..oq] == syl + "[" + rom + "]" + mid;
    assert m[lb + 1..rb] == rom;
    assert m[oq + 1..] == eng;
    ProcessLineAt(m, lb, rb, oq);
  }

  /** The result of processing form `k`; reading past the end of the list of
      forms throws. */
  function FormAt(processed: seq<Result<Option<Processed>, Exception>>, k: nat): Result<Option<Processed>, Exception> {
    if k < |processed| then processed[k] else Failure(ArgumentOutOfRange)
  }

  function FormOf(p: Option<Processed>): Option<Form> {
    match p
    case None => None
    case Some(q) => Some(Form(q.syllabary, q.romanized))
  }

  /** The entry built from the first six processed forms, read in order, the
      first failure among them being the one that propagates. */
  function VerbFromProcessed(processed: seq<Result<Option<Processed>, Exception>>): Result<VerbEntry, Exception> {
    var thirdPresent :- FormAt(processed, 0);
    var firstPresent :- FormAt(processed, 1);
    var completive :- FormAt(processed, 2);
    var incompletive :- FormAt(processed, 3);
    var immediate :- FormAt(processed, 4);
    var infinitive :- FormAt(processed, 5);
    Success(VerbEntry(
      if thirdPresent.Some? then Some(thirdPresent.value.english) else None,
      FormOf(thirdPresent), FormOf(firstPresent), FormOf(completive),
      FormOf(incompletive), FormOf(immediate), FormOf(infinitive)))
  }

  /** ProcessLine applied to every form. */
  function ProcessAll(forms: seq<string>): (processed: seq<Result<Option<Processed>, Exception>>)
    ensures |processed| == |forms|
  {
    seq(|forms|, k requires 0 <= k < |forms| => ProcessLine(forms[k]))
  }

  /** The verb entry of a list of forms. */
  function VerbFromForms(forms: seq<string>): Result<VerbEntry, Exception> {
    VerbFromProcessed(ProcessAll(forms))
  }

  /** Slot `k` of a verb entry, in the order of the forms. */
  function Slot(v: VerbEntry, k: nat): Option<Form>
    requires k < 6
  {
    if k == 0 then v.thirdPresent
    else if k == 1 then v.firstPresent
    else if k == 2 then v.completive
    else if k == 3 then v.incompletive
    else if k == 4 then v.immediate
    else v.infinitive
  }

  /** Building from processed forms succeeds exactly when there are six and
      none of the first six failed; slot k is then form k and the English is
      form 0's. */
  lemma VerbFromProcessedSlots(processed: seq<Result<Option<Processed>, Exception>>)
    ensures VerbFromProcessed(processed).Success? <==>
      |processed| >= 6 && forall k :: 0 <= k < 6 ==> processed[k].Success?
    ensures VerbFromProcessed(processed).Success? ==>
      var v := VerbFromProcessed(processed).value;
      && (forall k :: 0 <= k < 6 ==> Slot(v, k) == FormOf(processed[k].value))
      && v.english == if processed[0].value.None? then None else Some(processed[0].value.value.english)
  {
    if |processed| >= 6 && forall k :: 0 <= k < 6 ==> processed[k].Success? {
      assert processed[0].Success? && processed[1].Success? && processed[2].Success?;
      assert processed[3].Success? && processed[4].Success? && processed[5].Success?;
    }
  }

  /** A verb entry: slot k is empty exactly when form k is the placeholder,
      otherwise it holds form k's syllabary and romanized text; the English
      comes from form 0 alone. It is built exactly when there are at least six
      forms and each of the first six is the placeholder or can be sliced. */
  lemma VerbSlots(forms: seq<string>)
    ensures VerbFromForms(forms).Success? <==>
      |forms| >= 6 && forall k :: 0 <= k < 6 ==> ProcessLine(forms[k]).Success?
    ensures VerbFromForms(forms).Success? ==>
      var v := VerbFromForms(forms).value;
      && (forall k :: 0 <= k < 6 ==>
            && (Slot(v, k).None? <==> forms[k] == MISSING)
            && Slot(v, k) == FormOf(ProcessLine(forms[k]).value))
      && v.english == if forms[0] == MISSING then None else Some(ProcessLine(forms[0]).value.value.english)
  {
    var processed := ProcessAll(forms);
    VerbFromProcessedSlots(processed);
    if |forms| >= 6 {
      assert processed[0] == ProcessLine(forms[0]) && processed[1] == ProcessLine(forms[1]);
      assert processed[2] == ProcessLine(forms[2]) && processed[3] == ProcessLine(forms[3]);
      assert processed[4] == ProcessLine(forms[4]) && processed[5] == ProcessLine(forms[5]);
    }
    if VerbFromForms(forms).Success? {
      var v := VerbFromForms(forms).value;
      forall k | 0 <= k < 6
        ensures Slot(v, k).None? <==> forms[k] == MISSING
        ensures Slot(v, k) == FormOf(ProcessLine(forms[k]).value)
      {
        assert processed[k] == ProcessLine(forms[k]);
      }
    }
  }

  /** Fewer than six forms make the List indexer throw. */
  lemma VerbTooFewForms(forms: seq<string>)
    requires |forms| < 6
    ensures VerbFromForms(forms).Failure? && VerbFromForms(forms).error == ArgumentOutOfRange
  {
    var processed := ProcessAll(forms);
    forall k | 0 <= k < |processed| ensures processed[k].Failure? ==> processed[k].error == ArgumentOutOfRange {
      assert processed[k] == ProcessLine(forms[k]);
    }
    VerbFromProcessedShort(processed);
  }

  /** With fewer than six processed forms, every failure among them and the
      read past the end are the same exception. */
  lemma VerbFromProcessedShort(processed: seq<Result<Option<Processed>, Exception>>)
    requires |processed| < 6
    requires forall k :: 0 <= k < |processed| && processed[k].Failure? ==> processed[k].error == ArgumentOutOfRange
    ensures VerbFromProcessed(processed) == Failure(ArgumentOutOfRange)
  {
  }

  /** Forms after the sixth are never looked at. */
  lemma VerbIgnoresExtraForms(forms: seq<string>, extra: seq<string>)
    requires |forms| == 6
    ensures VerbFromForms(forms + extra) == VerbFromForms(forms)
  {
    var all := ProcessAll(forms + extra);
    assert all[..6] == ProcessAll(forms);
    VerbFromProcessedPrefix(all);
  }

  lemma VerbFromProcessedPrefix(processed: seq<Result<Option<Processed>, Exception>>)
    requires |processed| >= 6
    ensures VerbFromProcessed(processed) == VerbFromProcessed(processed[..6])
  {
    var six := processed[..6];
    assert six[0] == processed[0] && six[1] == processed[1] && six[2] == processed[2];
    assert six[3] == processed[3] && six[4] == processed[4] && six[5] == processed[5];
  }

  /** The verb entry of a mashed text. */
  function VerbEntryOf(mashed: string): Result<VerbEntry, Exception> {
    VerbFromForms(VerbForms(mashed))
  }

  /** The inner loop of ParseToVerbEntry on a fragment with a placeholder:
      append one placeholder per removal of its first occurrence, then the
      trimmed residue. */
  method AppendUnrolled(forms: seq<string>, fragment: string) returns (extended: seq<string>)
    ensures extended == forms + UnrollMissing(fragment)
  {
    var str := fragment;
    extended := forms;
    while Contains(str, MISSING)
      invariant forms + UnrollMissing(fragment) == extended + UnrollMissing(str)
      decreases |str|
    {
      var next := ReplaceFirstIn(str, MISSING, "");
      assert UnrollMissing(str) == [MISSING] + UnrollMissing(next);
      assert extended + UnrollMissing(str) == (extended + [MISSING]) + UnrollMissing(next);
      extended := extended + [MISSING];
      str := next;
    }
    extended := extended + [Trim(str)];
  }

  /** ParseToVerbEntry: split at closing quotes, unroll the placeholders, build
      the entry from the first six forms. */
  method ParseToVerbEntry(mashed: string) returns (r: Result<VerbEntry, Exception>)
    ensures r == VerbEntryOf(mashed)
  {
    var splitByCloseQuotes := SplitNonEmpty(mashed, '”');
    var forms: seq<string> := [];
    for i := 0 to |splitByCloseQuotes|
      invariant forms == UnrollAll(splitByCloseQuotes[..i])
    {
      var str := splitByCloseQuotes[i];
      UnrollAllStep(splitByCloseQuotes, i);
      if !Contains(str, MISSING) {
        forms := forms + [str];
      } else {
        forms := AppendUnrolled(forms, str);
      }
    }
    assert splitByCloseQuotes[..|splitByCloseQuotes|] == splitByCloseQuotes;
    r := VerbFromForms(forms);
  }

  // ---------------------------------------------------------------------------
  // The whole parse

  /** The entry of one segment, chosen by its start line's type. */
  function EntryOf(t: EntryType, mashed: string): Result<Entry, Exception> {
    match t
    case V =>
      var v :- VerbEntryOf(mashed);
      Success(Verb(v))
    case N => ParseToNounEntry(mashed)
    case ADJ => ParseToAdjectiveEntry(mashed)
    case PT => Success(Noun(Fields(Some("PT junk - TODO"), None, None)))
  }

  /** What each start line's segment parses to, in order. */
  function SegmentEntries(lines: seq<string>, found: seq<StartLine>): (results: seq<Result<Entry, Exception>>)
    requires WellFormedStarts(found, |lines|)
    ensures |results| == |found|
  {
    seq(|found|, k requires 0 <= k < |found| => EntryOf(found[k].entryType, Mashed(Segment(lines, found, k))))
  }

  /** ParseLinesToEntries, specified: null throws, no lines give no entries,
      an unrecognized tag throws before any entry is built, and otherwise the
      entries of the segments, or the first exception one of them raises. */
  function ParseEntries(lines: Option<seq<string>>): Result<seq<Entry>, Exception> {
    match lines
    case None => Failure(ArgumentNull)
    case Some(ls) =>
      if |ls| == 0 then Success([])
      else
        var found :- StartLinesUpTo(Kinds(ls), |ls|);
        StartLinesListed(Kinds(ls), |ls|);
        CollectUpTo(SegmentEntries(ls, found), |found|)
  }

  /** One more line for the first loop. */
  lemma StartLinesNext(kinds: seq<LineKind>, i: nat, found: seq<StartLine>)
    requires i < |kinds| && StartLinesUpTo(kinds, i) == Success(found)
    ensures kinds[i].Plain? ==> StartLinesUpTo(kinds, i + 1) == Success(found)
    ensures kinds[i].Start? ==> StartLinesUpTo(kinds, i + 1) == Success(found + [StartLine(kinds[i].entryType, i)])
    ensures kinds[i].Unrecognized? ==>
      StartLinesUpTo(kinds, i + 1) == Failure(UnrecognizedEntryType(kinds[i].tag))
  {
  }

  /** The body of the first loop on one line: the regex match, then
      Enum.TryParse of the uppercased tag. */
  method ClassifyLine(line: string) returns (kind: LineKind)
    ensures kind == Classify(line)
    ensures StartTag(line).None? ==> kind == Plain
    ensures StartTag(line) == Some("v") ==> kind == Start(V)
    ensures StartTag(line) == Some("n") ==> kind == Start(N)
    ensures StartTag(line) == Some("adj") ==> kind == Start(ADJ)
    ensures StartTag(line) == Some("pt") ==> kind == Start(PT)
    ensures StartTag(line).Some? && StartTag(line).value !in ["v", "n", "adj", "pt"] ==>
      kind == Unrecognized(StartTag(line).value)
  {
    var captured := StartTag(line);
    if captured.None? {
      return Plain;
    }
    EntryTypeOfLower(captured.value);
    var entryType := EntryTypeOf(captured.value);
    if entryType.None? {
      return Unrecognized(captured.value);
    }
    return Start(entryType.value);
  }

  /** The first loop of ParseLinesToEntries: the start line of every entry,
      or the exception raised at the first unrecognized tag. */
  method FindStartLines(ls: seq<string>) returns (r: Result<seq<StartLine>, Exception>)
    ensures r == StartLinesUpTo(Kinds(ls), |ls|)
  {
    ghost var kinds := Kinds(ls);
    var foundStartLines: seq<StartLine> := [];
    for i := 0 to |ls|
      invariant StartLinesUpTo(kinds, i) == Success(foundStartLines)
    {
      var kind := ClassifyLine(ls[i]);
      assert kinds[i] == kind;
      StartLinesNext(kinds, i, foundStartLines);
      match kind {
        case Plain =>
        case Unrecognized(tag) =>
          StartLinesFailurePersists(kinds, i + 1, |ls|);
          return Failure(UnrecognizedEntryType(tag));
        case Start(t) =>
          foundStartLines := foundStartLines + [StartLine(t, i)];
      }
    }
    return Success(foundStartLines);
  }

  /** The switch on the entry type. */
  method ParseEntry(t: EntryType, mashed: string) returns (entry: Result<Entry, Exception>)
    ensures entry == EntryOf(t, mashed)
  {
    match t {
      case V =>
        var v := ParseToVerbEntry(mashed);
        entry := if v.Success? then Success(Verb(v.value)) else Failure(v.error);
      case N =>
        entry := ParseToNounEntry(mashed);
      case ADJ =>
        entry := ParseToAdjectiveEntry(mashed);
      case PT =>
        entry := Success(Noun(Fields(Some("PT junk - TODO"), None, None)));
    }
  }

  /** The second loop of ParseLinesToEntries: the entry of every segment, or
      the first exception one of them raises. */
  method ParseSegments(ls: seq<string>, found: seq<StartLine>) returns (r: Result<seq<Entry>, Exception>)
    requires WellFormedStarts(found, |ls|)
    ensures r == CollectUpTo(SegmentEntries(ls, found), |found|)
  {
    ghost var results := SegmentEntries(ls, found);
    var parsed: seq<Entry> := [];
    for i := 0 to |found|
      invariant CollectUpTo(results, i) == Success(parsed)
    {
      var beginLine := found[i].line;
      var endLine := if i == |found| - 1 then |ls| else found[i + 1].line;
      var mashed := MashLines(ls[beginLine..endLine]);
      assert mashed == Mashed(Segment(ls, found, i));
      var entry := ParseEntry(found[i].entryType, mashed);
      assert entry == results[i];
      if entry.Failure? {
        CollectSucceeds(results, i);
        CollectFirstFailure(results, |found|, i);
        return Failure(entry.error);
      }
      parsed := parsed + [entry.value];
    }
    return Success(parsed);
  }

  method ParseLinesToEntries(lines: Option<seq<string>>) returns (r: Result<seq<Entry>, Exception>)
    ensures r == ParseEntries(lines)
  {
    if lines.None? {
      return Failure(ArgumentNull);
    }
    var ls := lines.value;
    if |ls| == 0 {
      return Success([]);
    }
    var found := FindStartLines(ls);
    if found.Failure? {
      return Failure(found.error);
    }
    StartLinesListed(Kinds(ls), |ls|);
    r := ParseSegments(ls, found.value);
  }

  /** The start lines found are exactly the lines the pattern matches. */
  lemma StartLinesAreMatches(ls: seq<string>)
    requires StartLinesUpTo(Kinds(ls), |ls|).Success?
    ensures var found := StartLinesUpTo(Kinds(ls), |ls|).value;
      forall i :: 0 <= i < |ls| ==> (StartTag(ls[i]).Some? <==> exists k :: 0 <= k < |found| && found[k].line == i)
  {
    var kinds := Kinds(ls);
    StartLinesListed(kinds, |ls|);
    StartLinesFailIff(kinds, |ls|);
    var found := StartLinesUpTo(kinds, |ls|).value;
    forall i | 0 <= i < |ls|
      ensures StartTag(ls[i]).Some? <==> exists k :: 0 <= k < |found| && found[k].line == i
    {
      assert kinds[i] == Classify(ls[i]);
      if StartTag(ls[i]).Some? {
        assert !kinds[i].Unrecognized?;
      }
    }
  }

  /** A successful parse has one entry per start line, which are exactly the
      lines matching the pattern, in order; entry `k` is the entry of the lines
      from start line `k` up to the next one, or to the end for the last. */
  lemma ParseEntriesShape(ls: seq<string>)
    requires |ls| > 0 && ParseEntries(Some(ls)).Success?
    ensures StartLinesUpTo(Kinds(ls), |ls|).Success?
    ensures var found := StartLinesUpTo(Kinds(ls), |ls|).value;
      var entries := ParseEntries(Some(ls)).value;
      && ListsStartLines(Kinds(ls), |ls|, found)
      && (forall i :: 0 <= i < |ls| ==> (StartTag(ls[i]).Some? <==> exists k :: 0 <= k < |found| && found[k].line == i))
      && |entries| == |found|
      && forall k :: 0 <= k < |found| ==>
           EntryOf(found[k].entryType, Mashed(Segment(ls, found, k))) == Success(entries[k])
  {
    StartLinesListed(Kinds(ls), |ls|);
    StartLinesAreMatches(ls);
    var found := StartLinesUpTo(Kinds(ls), |ls|).value;
    CollectSucceeds(SegmentEntries(ls, found), |found|);
  }

  /** A line with an unrecognized tag makes the whole parse throw
      InvalidOperationException, whatever the other lines hold. */
  lemma ParseEntriesUnknownTag(ls: seq<string>, i: nat)
    requires i < |ls| && StartTag(ls[i]).Some? && EntryTypeOf(StartTag(ls[i]).value).None?
    ensures ParseEntries(Some(ls)).Failure?
    ensures ParseEntries(Some(ls)).error.InvalidOperation?
  {
    var kinds := Kinds(ls);
    assert kinds[i] == Classify(ls[i]);
    StartLinesFailIff(kinds, |ls|);
  }

  /** A PT entry is a noun whose English is the placeholder text and whose
      other fields are unset; null input throws and no lines give no entries. */
  lemma ParseEntriesEdges(mashed: string)
    ensures EntryOf(PT, mashed) == Success(Noun(Fields(Some("PT junk - TODO"), None, None)))
    ensures ParseEntries(None) == Failure(ArgumentNull)
    ensures ParseEntries(Some([])) == Success([])
  {
  }
}
