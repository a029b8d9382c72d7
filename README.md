# Raven Rock dictionary parsers, modelled in Dafny

The Cherokee repository turns an OCR'd Cherokee–English dictionary (the Raven
Rock text) and its phonetic lookup index into structured records. This project
models the string and index manipulation at its core, and proves what that code
guarantees:

- **Dictionary entry parser** (`RavenRockParser`, from
  `Cherokee/Parsing/RavenRockParser.cs`):
  - finds the start line of every entry (a line matching `] (tag)`) and maps the
    tag to V, N, ADJ or PT; an unknown tag aborts the parse;
  - cuts the lines into half-open segments and mashes each segment into one string;
  - slices nouns and adjectives into their fields;
  - splits verbs into six forms, unrolling the `-----` placeholders.
- **Lookup-index parser** (`LookupParser`, from
  `Cherokee/code/RavenRockParsing/RavenRocker.cs`):
  - removes heading lines;
  - cuts entries at end lines (lines ending in digits and `)`);
  - splits each entry at `:` and `,`, slices each reference, and packs the
    parsed entries into a fixed-size array.
- **String extensions** (`StringExtensions`, from
  `Cherokee/Extensions/StringExtensions.cs`): `IsNumeric`, `AllIndicesOf` and
  `ReplaceFirst`.
- **Romanizer and verb-pair search** (`EndingPatterns`, from
  `Cherokee/EndingPatterns.cs`):
  - the syllabary table and `TryRomanize`;
  - the field-by-field romanization of one dictionary verb, on a `RomanizedVerb`
    object;
  - the rule that pairs a verb with the verbs whose forms contain its stripped forms.
- **Early header segmenter** (`HeaderSegmenter`, from `Cherokee/code/RavenRocker.cs`):
  `GetFirstMatchingIndex` and the loop that copies the lines from one header to
  the next.

Supporting modules:

- `Wrappers`: `Option` stands for C#'s `null`, and `Result` for a value or a
  thrown exception. `CollectUpTo` is what a loop that stops at the first
  exception returns.
- `Sequences`: filtering and the positions of the selected elements.
- `NetStrings`: the .NET string operations the source relies on, with their
  edge cases:
  - `IndexOf` gives -1 when the character is absent;
  - `Substring` throws `ArgumentOutOfRangeException` on a bad range;
  - `Split` with `RemoveEmptyEntries`, `Trim`, `TrimEnd`, `StartsWith` and
    `Contains`;
  - `Int32.Parse`.

The loops of the source are Dafny methods. Each is proved equal to a
specification function, and the properties the source promises are proved about
those functions as lemmas. The object whose properties
`TryParseToRomanizedVerb` sets one at a time is a class, `RomanizedVerb`. The
lookup table is a fixed-size array filled through an insertion index.

In four places the code behaves in a way a reader may not expect. The model
follows the code in each:

- The romanized text of a lookup reference keeps its closing `]`
  (`Substring(left + 1, right - left)`). This is the one place where the code
  and its unit tests disagree: the tests expect the bare text. `LookupParser.RomanizedKeepsBracket` states the difference.
- A page token that is not an integer makes `int.Parse` throw, and nothing
  catches it. The model propagates that exception
  (`LookupParser.ReferenceNotInteger`).
- A verb with fewer than six forms makes the list indexer throw.
- Delimiters out of order make `Substring` throw `ArgumentOutOfRangeException`.
  The model returns that failure instead of producing fields.

## Model

| member | source | states |
|---|---|---|
| RavenRockParser.ParseLinesToEntries | Cherokee/Parsing/RavenRockParser.cs:12-51 | The method computes `ParseEntries`: null throws `ArgumentNullException`, no lines give no entries, an unknown tag throws before any entry is built, and otherwise the result is the entries of the segments or the first exception. |
| RavenRockParser.ParseEntriesEdges | Cherokee/Parsing/RavenRockParser.cs:14-15 | Null input gives `ArgumentNull`, an empty array gives `[]`, and a PT entry is a noun with English `"PT junk - TODO"` and no other fields. |
| RavenRockParser.ParseEntriesShape | Cherokee/Parsing/RavenRockParser.cs:19-47 | A successful parse has one entry per start line. The start lines are exactly the lines the pattern matches, in order. Entry k is the entry of the mashed lines from start line k up to the next start line, or to the end. |
| RavenRockParser.ParseEntriesUnknownTag | Cherokee/Parsing/RavenRockParser.cs:24-26 | Any line whose tag is not V, N, ADJ or PT makes the whole parse fail with `InvalidOperationException`, so no partial list is returned. |
| RavenRockParser.FindStartLines | Cherokee/Parsing/RavenRockParser.cs:19-29 | The first loop returns the start lines of the first `n` lines, or the exception raised at the first unrecognized tag. |
| RavenRockParser.ClassifyLine | Cherokee/Parsing/RavenRockParser.cs:21-27 | One pass of the first loop. A line the pattern does not match is plain. A captured `v`, `n`, `adj` or `pt` gives a start line of type V, N, ADJ or PT. Any other captured tag is unrecognized and carries that tag. |
| RavenRockParser.StartLinesNext | Cherokee/Parsing/RavenRockParser.cs:21-28 | A plain line leaves the list unchanged. A start line appends (type, position). An unrecognized tag throws `Unrecognized entry type`. |
| RavenRockParser.StartLinesListed | Cherokee/Parsing/RavenRockParser.cs:19-29 | When the first loop completes, it lists, in increasing order, exactly the start lines, each with the type its tag names. |
| RavenRockParser.StartLinesFailIff | Cherokee/Parsing/RavenRockParser.cs:24-26 | The first loop throws if and only if some line has an unrecognized tag. What it throws is `InvalidOperationException`. |
| RavenRockParser.StartLinesFailurePersists | Cherokee/Parsing/RavenRockParser.cs:26 | Once the first loop has thrown, looking at more lines does not change the outcome. |
| RavenRockParser.StartLinesAreMatches | Cherokee/Parsing/RavenRockParser.cs:17-28 | A line is a start line if and only if the `] (letters)` pattern matches it. |
| RavenRockParser.StartLinesListedStep | Cherokee/Parsing/RavenRockParser.cs:28 | Adding a start line at position n keeps the list exact over n + 1 lines. |
| RavenRockParser.StartLinesListedSkip | Cherokee/Parsing/RavenRockParser.cs:21-23 | A non-start line at position n keeps the list exact over n + 1 lines. |
| RavenRockParser.LowerRunEnd | Cherokee/Parsing/RavenRockParser.cs:17 | The end of the maximal run of lowercase letters: every letter before it is lowercase, and the character at it is not (or the string ends there). |
| RavenRockParser.FirstMarkerFrom | Cherokee/Parsing/RavenRockParser.cs:17 | The leftmost position where `] (letters)` matches, with no match before it, or None when nothing matches. |
| RavenRockParser.StartTag | Cherokee/Parsing/RavenRockParser.cs:17-23 | A captured tag is non-empty and lowercase, and its line contains `] (`. |
| RavenRockParser.EntryTypeOfLower | Cherokee/Parsing/RavenRockParser.cs:236-242 | On a lowercase tag, exactly `v`, `n`, `adj` and `pt` are recognized, as V, N, ADJ and PT. |
| RavenRockParser.Classify | Cherokee/Parsing/RavenRockParser.cs:224-234 | A line is plain exactly when the pattern does not match it. An unrecognized line carries the captured tag. |
| RavenRockParser.Kinds | Cherokee/Parsing/RavenRockParser.cs:19-29 | Every line gets exactly one kind. |
| RavenRockParser.ParseSegments | Cherokee/Parsing/RavenRockParser.cs:31-47 | The second loop returns the entries of the segments in order, or the first exception one of them throws. |
| RavenRockParser.ParseEntry | Cherokee/Parsing/RavenRockParser.cs:39-46 | The switch on the entry type equals `EntryOf`. |
| RavenRockParser.SegmentEntries | Cherokee/Parsing/RavenRockParser.cs:33-37 | There is one result per start line. |
| RavenRockParser.SegmentsPartition | Cherokee/Parsing/RavenRockParser.cs:32-37 | Concatenated, the segments from segment i on are exactly the input from start line i to the end, without gaps or overlaps. |
| RavenRockParser.MashLines | Cherokee/Parsing/RavenRockParser.cs:53-63 | The builder loop returns the lines joined by single spaces, with outer white space trimmed. |
| RavenRockParser.SpaceTerminatedJoin | Cherokee/Parsing/RavenRockParser.cs:57-60 | Appending `line + " "` for each line gives the lines joined by single spaces, plus one trailing space. |
| RavenRockParser.MashedSmall | Cherokee/Parsing/RavenRockParser.cs:53-63 | No lines give `""`. One line gives that line trimmed. Mashing the mash of one line again changes nothing. |
| RavenRockParser.ExtractFields | Cherokee/Parsing/RavenRockParser.cs:175-182 | The only exception the slicing can throw is `ArgumentOutOfRangeException`. |
| RavenRockParser.ExtractFieldsAt | Cherokee/Parsing/RavenRockParser.cs:175-182 | With the first `[` before the first `]` and the first `“` before the first `”`: english is the text strictly between the quotes, romanized the text strictly between the brackets, and syllabary the right-trimmed text before the `[`. |
| RavenRockParser.ExtractFieldsDecompose | Cherokee/Parsing/RavenRockParser.cs:175-182 | An entry `SYL [ROM] ... “ENG” rest` gives back `ENG`, `ROM` and `SYL` right-trimmed. |
| RavenRockParser.ExtractFieldsIgnoresTrailing | Cherokee/Parsing/RavenRockParser.cs:175-182 | Text appended after an entry that has all four delimiters does not change the fields. |
| RavenRockParser.NounEntryAt | Cherokee/Parsing/RavenRockParser.cs:158-190 | With the first `[` before the first `]` and the first `“` before the first `”`: the noun's English is the text strictly between the quotes, its syllabary the right-trimmed text before the `[`, and its romanized text the text strictly between the brackets. |
| RavenRockParser.AdjectiveEntryAt | Cherokee/Parsing/RavenRockParser.cs:192-221 | The same three fields for an adjective, at the same delimiters. |
| RavenRockParser.UnrollMissing | Cherokee/Parsing/RavenRockParser.cs:106-115 | The unroll loop on a fragment that contains `-----` always contributes at least one form. |
| RavenRockParser.UnrollMissingShape | Cherokee/Parsing/RavenRockParser.cs:106-115 | All forms but the last are `-----`, and the last is the trimmed residue. The residue contains no `-----`. Each removal shortens the string by five characters, so the loop terminates. This holds because `IndexOf` in `ReplaceFirst` is read as ordinal, like `Contains` in the loop guard (see "## Left out"). |
| RavenRockParser.UnrollFragmentExamples | Cherokee/Parsing/RavenRockParser.cs:101-115 | A fragment without a placeholder is kept unchanged and untrimmed. A bare `-----` gives `-----` and then the empty residue. |
| RavenRockParser.AppendUnrolled | Cherokee/Parsing/RavenRockParser.cs:106-115 | The inner while-loop appends exactly `UnrollMissing(fragment)` to the forms. |
| RavenRockParser.UnrollAllStep | Cherokee/Parsing/RavenRockParser.cs:98-116 | The forms of one more fragment follow those of the fragments before it. |
| RavenRockParser.ParseToVerbEntry | Cherokee/Parsing/RavenRockParser.cs:66-156 | The method equals `VerbEntryOf`: split at `”`, drop empty pieces, unroll the placeholders, then build the entry from the first six forms. |
| RavenRockParser.ProcessLine | Cherokee/Parsing/RavenRockParser.cs:118-131 | The result is null exactly for `-----`. The only exception is `ArgumentOutOfRangeException`. |
| RavenRockParser.ProcessLineAt | Cherokee/Parsing/RavenRockParser.cs:118-131 | For a form with its first `[` before its first `]`: romanized is the text between the brackets, syllabary the right-trimmed text before the `[`, and english everything after the first `“`. |
| RavenRockParser.ProcessLineDecompose | Cherokee/Parsing/RavenRockParser.cs:118-131 | A form `SYL [ROM] ... “ENG` gives back its three parts. |
| RavenRockParser.ProcessAll | Cherokee/Parsing/RavenRockParser.cs:133-138 | There is one processed result per form. |
| RavenRockParser.VerbSlots | Cherokee/Parsing/RavenRockParser.cs:133-155 | The entry is built exactly when there are six forms and none of the first six fails. Slot k is empty exactly when form k is `-----`, and otherwise holds form k's syllabary and romanized text. The English comes from form 0 only. |
| RavenRockParser.VerbFromProcessedSlots | Cherokee/Parsing/RavenRockParser.cs:133-155 | The same as VerbSlots, stated over the processed forms. |
| RavenRockParser.VerbTooFewForms | Cherokee/Parsing/RavenRockParser.cs:133-138 | Fewer than six forms throw `ArgumentOutOfRangeException`. |
| RavenRockParser.VerbFromProcessedShort | Cherokee/Parsing/RavenRockParser.cs:133-138 | With fewer than six processed forms, the failure is `ArgumentOutOfRangeException`. |
| RavenRockParser.VerbIgnoresExtraForms | Cherokee/Parsing/RavenRockParser.cs:133-138 | Forms after the sixth never change the entry. |
| RavenRockParser.VerbFromProcessedPrefix | Cherokee/Parsing/RavenRockParser.cs:133-138 | Only the first six processed forms matter. |
| LookupParser.RemoveHeaderLines | Cherokee/code/RavenRockParsing/RavenRocker.cs:38-57 | The two passes (collect the heading positions, then keep the other lines) keep exactly `Filter(lines, IsKeptLine)`. |
| LookupParser.KeptLinesExact | Cherokee/code/RavenRockParsing/RavenRocker.cs:40-56 | The kept lines are exactly those containing `:` or `)` or starting with `Summer`. They keep their relative order, and the output is never longer than the input. |
| LookupParser.HeaderIndicesExact | Cherokee/code/RavenRockParsing/RavenRocker.cs:42-55 | A position is in the heading-position set exactly when its line is a heading. |
| LookupParser.HeaderPairs | Cherokee/code/RavenRockParsing/RavenRocker.cs:42-53 | There is one (position, line) pair per heading. |
| LookupParser.PairIndicesOf | Cherokee/code/RavenRockParsing/RavenRocker.cs:55 | The positions of the pairs are exactly the listed positions. |
| LookupParser.FindEndLines | Cherokee/code/RavenRockParsing/RavenRocker.cs:62-68 | The first loop gives the end-line positions, `EndLines`. |
| LookupParser.EndLinesExact | Cherokee/code/RavenRockParsing/RavenRocker.cs:62-68 | The end-line positions are strictly increasing and in range. Each one ends in digits followed by `)`, and every such line is listed. |
| LookupParser.EndLineExamples | Cherokee/code/RavenRockParsing/RavenRocker.cs:62 | Lines ending `pg 64)` (also before a final line feed) are end lines. A line ending `]` and the line `(pg)` are not. |
| LookupParser.LookupTableShape | Cherokee/code/RavenRockParsing/RavenRocker.cs:68-71 | No end lines give an empty array. A built table has one slot per end line. |
| LookupParser.TableSlots | Cherokee/code/RavenRockParsing/RavenRocker.cs:70-129 | The table has one slot per end line. The first slots hold, in source order, the entries whose colon split gave two pieces. Every later slot is null. |
| LookupParser.TableFails | Cherokee/code/RavenRockParsing/RavenRocker.cs:102-121 | The table fails exactly when some entry's text throws, and only an entry with two colon pieces can throw. |
| LookupParser.PackedSlots | Cherokee/code/RavenRockParsing/RavenRocker.cs:70-127 | Packing puts the kept entries first, in order, and leaves the remaining slots null. |
| LookupParser.KeptIffSome | Cherokee/code/RavenRockParsing/RavenRocker.cs:88-94 | An entry parses to a value exactly when its colon split gives two pieces. |
| LookupParser.EntryDecompose | Cherokee/code/RavenRockParsing/RavenRocker.cs:88-121 | For `english:refs`, the English is kept untrimmed, with one reference per non-empty comma piece of `refs`, in order. The entry throws exactly when one of those references throws. |
| LookupParser.EntrySkipped | Cherokee/code/RavenRockParsing/RavenRocker.cs:88-94 | An entry whose colon split does not give two pieces is skipped without throwing. |
| LookupParser.EntryTexts | Cherokee/code/RavenRockParsing/RavenRocker.cs:77-86 | There is one mashed text per end line. |
| LookupParser.EntryResults | Cherokee/code/RavenRockParsing/RavenRocker.cs:88-127 | There is one result per text. |
| LookupParser.PadNone | Cherokee/code/RavenRockParsing/RavenRocker.cs:71 | The padded table has the array's length. |
| LookupParser.Packed | Cherokee/code/RavenRockParsing/RavenRocker.cs:71-127 | The packed table has one slot per entry. |
| LookupParser.PadNoneSnoc | Cherokee/code/RavenRockParsing/RavenRocker.cs:123 | Writing the next entry into the first null slot is the same as packing one more entry. |
| LookupParser.ParseReference | Cherokee/code/RavenRockParsing/RavenRocker.cs:104-113 | A reference fails only with `ArgumentOutOfRange` (the bracket slices), `IndexOutOfRange` (no second page token), `Format` or `Overflow` (`int.Parse`). |
| LookupParser.ReferenceAt | Cherokee/code/RavenRockParsing/RavenRocker.cs:104-113 | With the first `[` before the first `]`, only the page can fail. Syllabary is the trimmed text before `[`, and romanized the trimmed text from after `[` through `]` inclusive. |
| LookupParser.ReferenceBetweenAt | Cherokee/code/RavenRockParsing/RavenRocker.cs:107-113 | The same cut, stated for bracket positions inside the string. |
| LookupParser.ReferenceDecompose | Cherokee/code/RavenRockParsing/RavenRocker.cs:104-113 | `pre[mid]post` gives syllabary `Trim(pre)`, romanized `TrimStart(mid) + "]"`, and the page read from `post`. |
| LookupParser.BracketsOf | Cherokee/code/RavenRockParsing/RavenRocker.cs:104-105 | In `pre[mid]post`, the first brackets are the ones written, with `pre`, `mid]` and `post` around them. |
| LookupParser.RomanizedKeepsBracket | Cherokee/code/RavenRockParsing/RavenRocker.cs:108 | The romanized text always ends in `]`, so it never equals the bare trimmed text between the brackets. |
| LookupParser.ReferenceBracketErrors | Cherokee/code/RavenRockParsing/RavenRocker.cs:104-108 | A missing bracket, or `]` before `[`, throws `ArgumentOutOfRangeException`. |
| LookupParser.PageOf | Cherokee/code/RavenRockParsing/RavenRocker.cs:109-113 | The page fails only with `IndexOutOfRange` (no second token), `Format` or `Overflow`. |
| LookupParser.PageNotInteger | Cherokee/code/RavenRockParsing/RavenRocker.cs:109-113 | A page token with a character that is not a digit (other than a leading sign) makes `int.Parse` throw `FormatException`. |
| LookupParser.ReferenceNotInteger | Cherokee/code/RavenRockParsing/RavenRocker.cs:102-113 | Nothing catches that exception: the whole reference `pre[mid] pg x)` fails with `FormatException`. |
| NetStrings.ParseInt32NonDigit | Cherokee/code/RavenRockParsing/RavenRocker.cs:109 | `Int32.Parse` of a trimmed string with a non-digit (other than a leading sign) throws `FormatException`. |
| LookupParser.PageSecondToken | Cherokee/code/RavenRockParsing/RavenRocker.cs:109-113 | ` pg 25)` and ` (pg 26)` both give the number as the page. |
| LookupParser.PageTextTrimmed | Cherokee/code/RavenRockParsing/RavenRocker.cs:111 | Only the closing parenthesis is trimmed from a page text that starts with a space. |
| LookupParser.PageTextSplit | Cherokee/code/RavenRockParsing/RavenRocker.cs:112 | A space, a word, a space and a number split into exactly the word and the number. |
| LookupParser.PageOfTokens | Cherokee/code/RavenRockParsing/RavenRocker.cs:109-113 | The page is `Int32.Parse` of the second token. |
| LookupParser.ParseEntryText | Cherokee/code/RavenRockParsing/RavenRocker.cs:88-127 | The loop body for one mashed entry equals `ParseRawEntry`. |
| LookupParser.ParseEntryAt | Cherokee/code/RavenRockParsing/RavenRocker.cs:77-127 | The lines from `startLine` through end line i, mashed and parsed, give entry i's result. |
| LookupParser.PlaceEntry | Cherokee/code/RavenRockParsing/RavenRocker.cs:123 | A parsed entry goes into slot `parsedInsertIdx`, which advances. A skipped entry changes nothing. |
| LookupParser.FillTable | Cherokee/code/RavenRockParsing/RavenRocker.cs:70-130 | The second loop, filling the array through `parsedInsertIdx` while `startLine` moves past each end line, equals `TableFrom`. |
| LookupParser.ParseLookupLines | Cherokee/code/RavenRockParsing/RavenRocker.cs:59-134 | The method equals `LookupTable`: find the end lines, then fill the table. |
| StringExtensions.IsNumericExamples | Cherokee/Extensions/StringExtensions.cs:8-13 | Null and `""` are not numeric. `1` and `1234567890` are numeric. `a` and `123abc` are not. |
| StringExtensions.IsNumericParses | Cherokee/Extensions/StringExtensions.cs:8-13 | A numeric string of at most nine digits is accepted by `Int32.Parse`, which returns its decimal value. |
| StringExtensions.DecimalValueBound | Cherokee/Extensions/StringExtensions.cs:12 | n digits denote a number below 10^n. |
| StringExtensions.AllIndicesOf | Cherokee/Extensions/StringExtensions.cs:15-27 | The iterator's loop yields exactly `YieldedIndices`. |
| StringExtensions.YieldStep | Cherokee/Extensions/StringExtensions.cs:22-26 | One pass yields `idx` and moves on to the next occurrence after it. |
| StringExtensions.AllIndicesOfYields | Cherokee/Extensions/StringExtensions.cs:15-27 | Nothing is yielded for null, for an absent character, or when the first occurrence is at index 0. Otherwise every occurrence is yielded, in strictly increasing order. |
| StringExtensions.AllIndicesOfMissesIndexZero | Cherokee/Extensions/StringExtensions.cs:22 | `'a'` is at index 0 of `"abc"`, yet nothing is yielded. The corrected loop yields `[0]`. |
| StringExtensions.YieldWhilePositiveAgrees | Cherokee/Extensions/StringExtensions.cs:22 | Away from index 0, the loop as written and the corrected loop agree. |
| StringExtensions.AllIndicesOfCorrectedLists | Cherokee/Extensions/StringExtensions.cs:15-27 | With the guard `idx >= 0`, every occurrence is yielded, in strictly increasing order. |
| StringExtensions.OccurrencesFromLists | Cherokee/Extensions/StringExtensions.cs:20-26 | From the first occurrence at or after `from`, the corrected loop lists every occurrence from `from` on. |
| StringExtensions.OccurrencesFromStep | Cherokee/Extensions/StringExtensions.cs:24-25 | One step of the corrected loop: the first occurrence followed by the later ones is an exact listing. |
| StringExtensions.NoOccurrencesFrom | Cherokee/Extensions/StringExtensions.cs:20-22 | When IndexOf finds nothing, the empty listing is exact. |
| StringExtensions.ReplaceFirst | Cherokee/Extensions/StringExtensions.cs:29-38 | The result is null exactly when the input is null. |
| StringExtensions.ReplaceFirstIn | Cherokee/Extensions/StringExtensions.cs:33-37 | An absent `toReplace` leaves the string as it is. Otherwise the length changes by `|replaceBy| - |toReplace|`. |
| StringExtensions.ReplaceFirstSplices | Cherokee/Extensions/StringExtensions.cs:37 | For `pre + toReplace + post` with no earlier occurrence, the result is `pre + replaceBy + post`. |
| StringExtensions.ReplaceFirstExamples | Cherokee/Extensions/StringExtensions.cs:29-38 | Null stays null. `owl` is absent, so the text is unchanged. Removing `a tes` from `this is a test` gives `this is t`. |
| EndingPatterns.Syllable | Cherokee/EndingPatterns.cs:12-112 | Every entry of the lookup table is one to three lowercase ASCII letters. |
| EndingPatterns.TableExamples | Cherokee/EndingPatterns.cs:12-112 | `Ꭰ→a`, `Ꭶ→ga`, `Ꮝ→s`, and `A` is not in the table. |
| EndingPatterns.RomanizeAmbiguous | Cherokee/EndingPatterns.cs:12-112 | `ᏍᎠ` and `Ꮜ` both romanize to `sa`, so romanization is not injective. |
| EndingPatterns.TryRomanize | Cherokee/EndingPatterns.cs:376-393 | The foreach loop succeeds exactly when `Romanize` does. It then returns the romanization, and `""` otherwise. |
| EndingPatterns.RomanizeDefined | Cherokee/EndingPatterns.cs:378-391 | Romanization succeeds exactly when every glyph is in the table. The result is lowercase ASCII, one to three letters per glyph. |
| EndingPatterns.RomanizeAppend | Cherokee/EndingPatterns.cs:380-389 | romanize(a + b) succeeds exactly when both parts do, and is romanize(a) + romanize(b). |
| EndingPatterns.RomanizeGlyph | Cherokee/EndingPatterns.cs:384-389 | A single glyph romanizes to its table entry. |
| EndingPatterns.RomanizeWithDefined | Cherokee/EndingPatterns.cs:380-391 | The same as RomanizeDefined, for any table of syllables. |
| EndingPatterns.RomanizeWithAppend | Cherokee/EndingPatterns.cs:380-389 | The same as RomanizeAppend, for any table. |
| EndingPatterns.TokenValue | Cherokee/EndingPatterns.cs:215-298 | Reading a token throws exactly for an empty array. |
| EndingPatterns.RomanizedVerb.constructor | Cherokee/EndingPatterns.cs:203 | A new verb has every property null and `HadInvalidChars` false. |
| EndingPatterns.ReadFields | Cherokee/EndingPatterns.cs:215-298 | The fields are copied from the JSON in order, stopping at the first empty array, which throws. |
| EndingPatterns.RomanizeProperty | Cherokee/EndingPatterns.cs:300-311 | A present field is replaced by its romanization when there is one. Otherwise it is kept and reported as failed. |
| EndingPatterns.RomanizeProperties | Cherokee/EndingPatterns.cs:300-371 | The object's fields become `RomanizeForms` of their old values. |
| EndingPatterns.FieldRomanizedHolds | Cherokee/EndingPatterns.cs:300-371 | Absent stays absent. A field with an unmapped glyph keeps its text. Any other field becomes its romanization. A field fails exactly when it has an unmapped glyph. |
| EndingPatterns.RomanizeFormsFields | Cherokee/EndingPatterns.cs:300-371 | Each form field is romanized or kept as above, and the translation is untouched. `HadInvalidChars` is set exactly when some present form field has an unmapped glyph. |
| EndingPatterns.TryParseToRomanizedVerb | Cherokee/EndingPatterns.cs:201-374 | The method returns false exactly in `ParseVerb`'s None case, leaving the verb blank. It throws exactly when `ParseVerb` throws. On true, the object holds `ParseVerb`'s romanized fields. |
| EndingPatterns.ParseVerbOutcome | Cherokee/EndingPatterns.cs:205-213 | The result is false exactly when the third-present or translation key is absent. The call throws `ArgumentOutOfRange` exactly when one of the seven keys holds an empty array. Otherwise it is true with the romanized fields. |
| EndingPatterns.FindPairs | Cherokee/EndingPatterns.cs:167-193 | The nested loops compute `Pairs`. |
| EndingPatterns.FindPartners | Cherokee/EndingPatterns.cs:185-192 | The inner loop adds exactly the partners of verb i, or fails with their exception. |
| EndingPatterns.MatchesRule | Cherokee/EndingPatterns.cs:170-190 | One inner pass accepts exactly the pairs of the rule: the test has a completive, its present differs, its completive contains the completive without its first character, and its present contains the stripped present. Only a test that is not pairable can throw. |
| EndingPatterns.PairsMembers | Cherokee/EndingPatterns.cs:167-193 | When the search completes, the set holds exactly the pairs (i, j) that the rule accepts. No verb is paired with itself. |
| EndingPatterns.PartnersMembers | Cherokee/EndingPatterns.cs:185-192 | The inner loop for verb i records exactly the (i, j) whose pass accepts test j. |
| EndingPatterns.PairsSucceedIff | Cherokee/EndingPatterns.cs:167-193 | The search completes exactly when every verb is pairable. It throws exactly when some verb has a completive and either an empty completive or no present. |
| EndingPatterns.PairsThrow | Cherokee/EndingPatterns.cs:171-188 | One verb that is not pairable makes the search throw. |
| EndingPatterns.PairsSucceed | Cherokee/EndingPatterns.cs:167-193 | When every verb is pairable, the outer loop never throws. |
| EndingPatterns.PartnersSucceed | Cherokee/EndingPatterns.cs:185-192 | When every verb is pairable, the inner loop never throws. |
| EndingPatterns.PairsFailPersists | Cherokee/EndingPatterns.cs:168-193 | Once the outer loop has thrown, more verbs do not change the outcome. |
| EndingPatterns.PartnersFailPersists | Cherokee/EndingPatterns.cs:185-192 | Once the inner loop has thrown, more tests do not change the outcome. |
| HeaderSegmenter.GetFirstMatchingIndex | Cherokee/code/RavenRocker.cs:33-41 | The for-loop with its early return computes `FirstIndex`. |
| HeaderSegmenter.FirstIndex | Cherokee/code/RavenRocker.cs:33-41 | The result is -1 exactly when the needle is absent. Otherwise it is a position holding the needle, with none before it. |
| HeaderSegmenter.FirstIndexFrom | Cherokee/code/RavenRocker.cs:35-38 | The same, searching from position i. |
| HeaderSegmenter.HeadersFound | Cherokee/code/RavenRocker.cs:13-23 | Every header line is found among the lines, so the throws at lines 22-23 for a missing header are unreachable. |
| HeaderSegmenter.DistinctHeaderSegments | Cherokee/code/RavenRocker.cs:15-30 | With distinct header texts nothing throws, and there is one segment per header but the last. Segment i runs from header line i up to header line i + 1, starts with that header and holds no other header line. |
| HeaderSegmenter.DistinctSegmentAt | Cherokee/code/RavenRocker.cs:19-29 | With distinct header texts, `headerIdx < nextHeaderIdx`, and `currentDef` is `rawLines[headerIdx..nextHeaderIdx)` with no header line in between. |
| HeaderSegmenter.DistinctSelectedFound | Cherokee/code/RavenRocker.cs:19-20 | With distinct header texts, the search for header i finds header i's own line. |
| HeaderSegmenter.SelectedBetween | Cherokee/code/RavenRocker.cs:13 | No header line lies between two consecutive header lines. |
| HeaderSegmenter.SegmentResults | Cherokee/code/RavenRocker.cs:15 | There is one pass per header but the last. |
| HeaderSegmenter.CopySegment | Cherokee/code/RavenRocker.cs:25-29 | The inner loop fills a fresh array with exactly `rawLines[from..to)`. |
| HeaderSegmenter.SegmentFor | Cherokee/code/RavenRocker.cs:17-29 | One pass of Main's loop equals `SegmentAt`: a missing header throws `InvalidOperationException`, and a next header before this one makes the array size negative. |
| HeaderSegmenter.SegmentHeaders | Cherokee/code/RavenRocker.cs:15-30 | The loop computes `Segments`. |
| NetStrings.ParseInt32 | Cherokee/code/RavenRockParsing/RavenRocker.cs:109 | `Int32.Parse` returns a value inside the 32-bit range, or throws `Format` or `Overflow`. |
| NetStrings.Slice | Cherokee/Parsing/RavenRockParser.cs:175-182 | `Substring` fails only with `ArgumentOutOfRange`. |
| NetStrings.JoinSplit | Cherokee/code/RavenRockParsing/RavenRocker.cs:99 | Splitting at a separator and joining again gives back the string. |
| NetStrings.SplitNonEmptyPair | Cherokee/code/RavenRockParsing/RavenRocker.cs:88-89 | Two non-empty pieces without the separator, joined by it, split back into exactly those two. |
| NetStrings.TrimWhereIdempotent | Cherokee/Parsing/RavenRockParser.cs:62 | Trimming twice is trimming once. |
| Wrappers.CollectSucceeds | Cherokee/Parsing/RavenRockParser.cs:31-47 | A loop that stops at the first exception succeeds exactly when every step does, and then gives the values in order. |
| Wrappers.CollectFirstFailure | Cherokee/Parsing/RavenRockParser.cs:31-47 | The first exception is the one reported. |
| Sequences.IndicesWhereListed | Cherokee/Parsing/RavenRockParser.cs:19-29 | The positions found are increasing and satisfy the predicate, and every position satisfying it is listed. |
| Sequences.FilterSelects | Cherokee/code/RavenRockParsing/RavenRocker.cs:56 | The filtered elements are the elements at those positions. |

## Left out

- File and console I/O is not modelled: `ReadLookup`, `ReadRavenRock`, `File.ReadAllLines`, `Console.WriteLine` and `Console.Error.WriteLine`.
- The `Main` methods of `Cherokee/code/RavenRockParsing/RavenRocker.cs` and `Cherokee/EndingPatterns.cs` are modelled only in the parts listed above.
- `Cherokee/RavenRocker.cs` is not part of this model. It is an asynchronous file read plus JSON serialization.
- `GetDictionaryEntries` and the type filter of `EndingPatterns.Main` are left out: they are a directory scan, `Task.Run` fan-out and JSON parsing.
- The mapping loop of `EndingPatterns.Main` (lines 153-164) is not a method of its own: it keeps the verbs for which the modelled `TryParseToRomanizedVerb` returns true, and the pair search takes that list as its input.
- The JSON handling of `TryParseToRomanizedVerb` is abstracted:
  - a value's token is a string, an array of nullable strings, or any other kind, which reads as null;
  - an array contributes its first element.
- EndingPatterns.FindPairs: the source's `pairs` set holds `(RomanizedVerb, RomanizedVerb)` object references. The model records (verb, test) positions in the list of mapped verbs, taken as immutable snapshots. So it does not model the order in which `HashSet` enumerates pairs for printing.
- The .NET regex engine is replaced by hand-written predicates for `] \(([a-z]+)\)`, `[0-9]+\)$` and `.*:.*|.*\).*`.
- `LookupParser.EndLines`: `HashSet<int>.ToArray()` has no documented order. The model takes the end-line positions in ascending order, the order in which they were added.
- `StringExtensions.IsNumeric` uses `char.IsDigit`, which accepts every Unicode decimal digit. The model uses ASCII `0`-`9`. `IsNumericParses` therefore relates it to `Int32.Parse` only for ASCII digits.
- `Trim`, `TrimEnd` and `TrimStart` drop the characters of Unicode's White_Space property, written out as a fixed list; this is `char.IsWhiteSpace` for the Unicode version the list was taken from.
- `Int32.Parse` is modelled for the invariant culture: surrounding white space U+0009 to U+000D and the space, an optional sign, ASCII digits, and an overflow check; culture-specific signs and digits are not.
- String comparisons (`Contains`, `StartsWith`, `IndexOf(string)`) are modelled as ordinal. The source's `StartsWith(string)` and `IndexOf(string)` compare with the current culture, which the model does not capture.
- RavenRockParser.UnrollMissingShape: termination of the unroll loop is proved only for ordinal search. The loop guard (`Contains`, RavenRockParser.cs:108) is ordinal, but `ReplaceFirst` finds the occurrence with the culture-sensitive `IndexOf(string)` (StringExtensions.cs:33). If that search misses an occurrence `Contains` sees, `ReplaceFirst` returns the string unchanged (line 35) and the loop would not end. `-----` directly followed by a combining mark is a plausible case. The model does not capture this.
- Input arrays are `seq<string>`, so a `null` element cannot occur. In the source, such an element would make `Regex.Match`/`IsMatch` throw `ArgumentNullException` (RavenRockParser.cs:21; RavenRocker.cs:49 and 66). The model does not capture this; lines read by `File.ReadAllLines` are never null.
- `ToUpperInvariant` is modelled only on the lowercase ASCII letters that a captured tag can hold.
- The unused `hyphenLines` variable of `Cherokee/code/RavenRocker.cs` (line 12) is not modelled.
- HeaderSegmenter.SegmentHeaders returns the segments it builds, which the source discards after each pass.
- The line-joining loop of `ParseLookupLines` (lines 78-86) is modelled by `RavenRockParser.MashLines`, which appends and trims in the same way.
- Exceptions carry no message text, except the `Unrecognized entry type` message.

## Findings

| source | as written | input that shows it | evidently intended | confidence | as-written member | corrected member |
|---|---|---|---|---|---|---|
| Cherokee/Extensions/StringExtensions.cs:22 | The loop guard `idx > 0` stops before yielding an occurrence at index 0, and since the first search starts there, nothing at all is yielded | `"abc".AllIndicesOf('a')` yields nothing, though `'a'` is at index 0 | `idx >= 0`, yielding every occurrence | not executed | StringExtensions.AllIndicesOfMissesIndexZero | StringExtensions.AllIndicesOfCorrectedLists |
