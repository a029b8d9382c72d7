/** The syllabary romanizer and the verb-pair search of the ending-pattern
    tool: a static glyph table, romanization of a whole word, romanization of
    the fields of one dictionary verb, and the rule that pairs a verb with the
    verbs whose forms contain its stripped forms. */
module EndingPatterns {
  import opened Wrappers
  import opened NetStrings

  // ---------------------------------------------------------------------------
  // The glyph table

  predicate IsLowercaseAscii(s: string) {
    forall k :: 0 <= k < |s| ==> 'a' <= s[k] <= 'z'
  }

  /** One to three lowercase ASCII letters: the shape of every syllable in the table. */
  predicate IsSyllable(s: string) {
    1 <= |s| <= 3 && IsLowercaseAscii(s)
  }

  /** The table's entries for the vowels and the g and k series. */
  function VowelOrKSyllable(c: char): (r: Option<string>)
    ensures r.Some? ==> IsSyllable(r.value)
  {
    match c
    case 'Ꭰ' => Some("a")
    case 'Ꭱ' => Some("e")
    case 'Ꭲ' => Some("i")
    case 'Ꭳ' => Some("o")
    case 'Ꭴ' => Some("u")
    case 'Ꭵ' => Some("v")
    case 'Ꭶ' => Some("ga")
    case 'Ꭸ' => Some("ge")
    case 'Ꭹ' => Some("gi")
    case 'Ꭺ' => Some("go")
    case 'Ꭻ' => Some("gu")
    case 'Ꭼ' => Some("gv")
    case 'Ꭷ' => Some("ka")
    case _ => None
  }

  /** The table's entries for the s and m series. */
  function SOrMSyllable(c: char): (r: Option<string>)
    ensures r.Some? ==> IsSyllable(r.value)
  {
    match c
    case 'Ꮝ' => Some("s")
    case 'Ꮜ' => Some("sa")
    case 'Ꮞ' => Some("se")
    case 'Ꮟ' => Some("si")
    case 'Ꮠ' => Some("so")
    case 'Ꮡ' => Some("su")
    case 'Ꮢ' => Some("sv")
    case 'Ꮉ' => Some("ma")
    case 'Ꮊ' => Some("me")
    case 'Ꮋ' => Some("mi")
    case 'Ꮌ' => Some("mo")
    case 'Ꮍ' => Some("mu")
    case _ => None
  }

  /** The table's entries for the n series (with hna) and the d series. */
  function NOrDSyllable(c: char): (r: Option<string>)
    ensures r.Some? ==> IsSyllable(r.value)
  {
    match c
    case 'Ꮏ' => Some("hna")
    case 'Ꮎ' => Some("na")
    case 'Ꮑ' => Some("ne")
    case 'Ꮒ' => Some("ni")
    case 'Ꮓ' => Some("no")
    case 'Ꮔ' => Some("nu")
    case 'Ꮕ' => Some("nv")
    case 'Ꮣ' => Some("da")
    case 'Ꮥ' => Some("de")
    case 'Ꮧ' => Some("di")
    case 'Ꮩ' => Some("do")
    case 'Ꮪ' => Some("du")
    case 'Ꮫ' => Some("dv")
    case _ => None
  }

  /** The table's entries for the l and w series. */
  function LOrWSyllable(c: char): (r: Option<string>)
    ensures r.Some? ==> IsSyllable(r.value)
  {
    match c
    case 'Ꮃ' => Some("la")
    case 'Ꮄ' => Some("le")
    case 'Ꮅ' => Some("li")
    case 'Ꮆ' => Some("lo")
    case 'Ꮇ' => Some("lu")
    case 'Ꮈ' => Some("lv")
    case 'Ꮹ' => Some("wa")
    case 'Ꮺ' => Some("we")
    case 'Ꮻ' => Some("wi")
    case 'Ꮼ' => Some("wo")
    case 'Ꮽ' => Some("wu")
    case 'Ꮾ' => Some("wv")
    case _ => None
  }

  /** The table's entries for the gw, t and y series. */
  function GwTOrYSyllable(c: char): (r: Option<string>)
    ensures r.Some? ==> IsSyllable(r.value)
  {
    match c
    case 'Ꮖ' => Some("gwa")
    case 'Ꮗ' => Some("gwe")
    case 'Ꮘ' => Some("gwi")
    case 'Ꮙ' => Some("gwo")
    case 'Ꮚ' => Some("gwu")
    case 'Ꮛ' => Some("gwv")
    case 'Ꮤ' => Some("ta")
    case 'Ꮦ' => Some("te")
    case 'Ꮨ' => Some("ti")
    case 'Ꮿ' => Some("ya")
    case 'Ᏸ' => Some("ye")
    case 'Ᏹ' => Some("yi")
    case 'Ᏺ' => Some("yo")
    case 'Ᏻ' => Some("yu")
    case 'Ᏼ' => Some("yv")
    case _ => None
  }

  /** The table's entries for the h and ts series. */
  function HOrTsSyllable(c: char): (r: Option<string>)
    ensures r.Some? ==> IsSyllable(r.value)
  {
    match c
    case 'Ꭽ' => Some("ha")
    case 'Ꭾ' => Some("he")
    case 'Ꭿ' => Some("hi")
    case 'Ꮀ' => Some("ho")
    case 'Ꮁ' => Some("hu")
    case 'Ꮂ' => Some("hv")
    case 'Ꮳ' => Some("tsa")
    case 'Ꮴ' => Some("tse")
    case 'Ꮵ' => Some("tsi")
    case 'Ꮶ' => Some("tso")
    case 'Ꮷ' => Some("tsu")
    case 'Ꮸ' => Some("tsv")
    case _ => None
  }

  /** The table's entries for the tl series and dla. */
  function TlOrDlSyllable(c: char): (r: Option<string>)
    ensures r.Some? ==> IsSyllable(r.value)
  {
    match c
    case 'Ꮭ' => Some("tla")
    case 'Ꮮ' => Some("tle")
    case 'Ꮯ' => Some("tli")
    case 'Ꮰ' => Some("tlo")
    case 'Ꮱ' => Some("tlu")
    case 'Ꮲ' => Some("tlv")
    case 'Ꮬ' => Some("dla")
    case _ => None
  }

  /** The static `lookup` dictionary: the syllable a syllabary glyph is written
      as, for the 84 glyphs it lists, and None for every other character. */
  function Syllable(c: char): (r: Option<string>)
    ensures r.Some? ==> IsSyllable(r.value)
  {
    var r := VowelOrKSyllable(c);
    if r.Some? then r else
    var r := SOrMSyllable(c);
    if r.Some? then r else
    var r := NOrDSyllable(c);
    if r.Some? then r else
    var r := LOrWSyllable(c);
    if r.Some? then r else
    var r := GwTOrYSyllable(c);
    if r.Some? then r else
    var r := HOrTsSyllable(c);
    if r.Some? then r else
    var r := TlOrDlSyllable(c);
    r
  }

  // ---------------------------------------------------------------------------
  // Romanizing a word

  /** A table whose every entry is a syllable. */
  predicate SyllableTable(table: char -> Option<string>) {
    forall c :: table(c).Some? ==> IsSyllable(table(c).value)
  }

  /** The entries `table` gives for the glyphs of `s`, concatenated in order,
      or None when some glyph has no entry. */
  function RomanizeWith(s: string, table: char -> Option<string>): Option<string> {
    if |s| == 0 then Some("")
    else
      match (RomanizeWith(s[..|s| - 1], table), table(s[|s| - 1]))
      case (Some(init), Some(last)) => Some(init + last)
      case _ => None
  }

  /** TryRomanize's result: the syllables of the glyphs of `s`, in order, or
      None when some glyph is not in the table. */
  function Romanize(s: string): Option<string> {
    RomanizeWith(s, Syllable)
  }

  lemma {:induction false} RomanizeWithDefined(s: string, table: char -> Option<string>)
    requires SyllableTable(table)
    ensures RomanizeWith(s, table).Some? <==> forall k :: 0 <= k < |s| ==> table(s[k]).Some?
    ensures RomanizeWith(s, table).Some? ==>
      |s| <= |RomanizeWith(s, table).value| <= 3 * |s| && IsLowercaseAscii(RomanizeWith(s, table).value)
    decreases |s|
  {
    if |s| > 0 {
      var init := s[..|s| - 1];
      RomanizeWithDefined(init, table);
      forall k | 0 <= k < |init| ensures init[k] == s[k] {
      }
    }
  }

  lemma {:induction false} RomanizeWithAppend(a: string, b: string, table: char -> Option<string>)
    ensures RomanizeWith(a + b, table) ==
      if RomanizeWith(a, table).Some? && RomanizeWith(b, table).Some?
      then Some(RomanizeWith(a, table).value + RomanizeWith(b, table).value)
      else None
    decreases |b|
  {
    if |b| == 0 {
      assert a + b == a;
      if RomanizeWith(a, table).Some? {
        assert RomanizeWith(a, table).value + "" == RomanizeWith(a, table).value;
      }
    } else {
      var init := b[..|b| - 1];
      var last := b[|b| - 1];
      RomanizeWithAppend(a, init, table);
      assert (a + b)[..|a + b| - 1] == a + init;
      assert (a + b)[|a + b| - 1] == last;
      if RomanizeWith(a, table).Some? && RomanizeWith(init, table).Some? && table(last).Some? {
        var ra, ri, rl := RomanizeWith(a, table).value, RomanizeWith(init, table).value, table(last).value;
        assert (ra + ri) + rl == ra + (ri + rl);
      }
    }
  }

  /** Romanizing succeeds exactly when every glyph is in the table; the result
      is lowercase ASCII, one to three letters per glyph. */
  lemma RomanizeDefined(s: string)
    ensures Romanize(s).Some? <==> forall k :: 0 <= k < |s| ==> Syllable(s[k]).Some?
    ensures Romanize(s).Some? ==>
      |s| <= |Romanize(s).value| <= 3 * |s| && IsLowercaseAscii(Romanize(s).value)
  {
    RomanizeWithDefined(s, Syllable);
  }

  /** Romanization distributes over concatenation: the romanization of `a + b`
      exists exactly when both parts have one, and is their concatenation. */
  lemma RomanizeAppend(a: string, b: string)
    ensures Romanize(a + b) ==
      if Romanize(a).Some? && Romanize(b).Some? then Some(Romanize(a).value + Romanize(b).value) else None
  {
    RomanizeWithAppend(a, b, Syllable);
  }

  /** A single glyph romanizes to its table entry. */
  lemma RomanizeGlyph(c: char)
    ensures Romanize([c]) == Syllable(c)
  {
    assert [c][..0] == "";
    assert RomanizeWith([c][..0], Syllable) == Some("");
    if Syllable(c).Some? {
      assert "" + Syllable(c).value == Syllable(c).value;
    }
  }

  /** Some entries of the table. */
  lemma TableExamples()
    ensures Syllable('Ꭰ') == Some("a") && Syllable('Ꭶ') == Some("ga") && Syllable('Ꮝ') == Some("s")
    ensures Syllable('A') == None
  {
  }

  /** The romanization does not determine the word: `Ꮝ` followed by `Ꭰ`, and
      `Ꮜ` alone, both give `sa`. */
  lemma RomanizeAmbiguous()
    ensures Romanize("ᏍᎠ") == Romanize("Ꮜ") == Some("sa")
  {
    RomanizeGlyph('Ꮝ');
    RomanizeGlyph('Ꭰ');
    RomanizeGlyph('Ꮜ');
    assert Syllable('Ꮝ') == Some("s") && Syllable('Ꭰ') == Some("a") && Syllable('Ꮜ') == Some("sa");
    RomanizeAppend("Ꮝ", "Ꭰ");
    assert "Ꮝ" + "Ꭰ" == "ᏍᎠ" && "s" + "a" == "sa";
  }

  /** TryRomanize: builds the romanization glyph by glyph and gives up, with
      an empty result, at the first glyph missing from the table. */
  method TryRomanize(syllabary: string) returns (ok: bool, romanized: string)
    ensures ok == Romanize(syllabary).Some?
    ensures romanized == if ok then Romanize(syllabary).value else ""
  {
    var builder := "";
    for i := 0 to |syllabary|
      invariant Romanize(syllabary[..i]) == Some(builder)
    {
      var roman := Syllable(syllabary[i]);
      if roman.None? {
        RomanizeDefined(syllabary);
        return false, "";
      }
      assert syllabary[..i + 1][..i] == syllabary[..i];
      builder := builder + roman.value;
    }
    assert syllabary[..|syllabary|] == syllabary;
    return true, builder;
  }

  // ---------------------------------------------------------------------------
  // Romanizing one dictionary verb

  /** A JSON value of a verb entry: a string, an array (whose elements are
      strings, or JSON null), or a value of another kind. */
  datatype Token = StringToken(text: string) | ArrayToken(elements: seq<Option<string>>) | OtherToken

  /** The string a field takes from its token: the string itself, the first
      array element (an empty array throws), and null for any other kind. */
  function TokenValue(t: Token): (r: Result<Option<string>, Exception>)
    ensures r.Failure? <==> t.ArrayToken? && |t.elements| == 0
  {
    match t
    case StringToken(text) => Success(Some(text))
    case ArrayToken(elements) => if |elements| == 0 then Failure(ArgumentOutOfRange) else Success(elements[0])
    case OtherToken => Success(None)
  }

  /** A field whose key is absent stays null. */
  function FieldValue(t: Option<Token>): Result<Option<string>, Exception> {
    match t
    case None => Success(None)
    case Some(token) => TokenValue(token)
  }

  /** The tokens of the seven keys TryParseToRomanizedVerb reads, None for an absent key. */
  datatype VerbJson = VerbJson(
    thirdPresent: Option<Token>,
    firstPresent: Option<Token>,
    thirdCompletive: Option<Token>,
    thirdIncompletive: Option<Token>,
    secondImmediate: Option<Token>,
    thirdInfinitive: Option<Token>,
    translation: Option<Token>)

  /** The field values of a RomanizedVerb, None standing for null. */
  datatype VerbForms = VerbForms(
    thirdPresent: Option<string>,
    firstPresent: Option<string>,
    thirdCompletive: Option<string>,
    thirdIncompletive: Option<string>,
    secondImmediate: Option<string>,
    thirdInfinitive: Option<string>,
    translation: Option<string>,
    hadInvalidChars: bool)

  /** A freshly constructed RomanizedVerb. */
  const Blank := VerbForms(None, None, None, None, None, None, None, false)

  /** The fields as read from the JSON, before romanization, in the order the
      source reads them (the first empty array throws). */
  function RawForms(entry: VerbJson): Result<VerbForms, Exception>
    requires entry.thirdPresent.Some? && entry.translation.Some?
  {
    var thirdPresent :- TokenValue(entry.thirdPresent.value);
    var translation :- TokenValue(entry.translation.value);
    var firstPresent :- FieldValue(entry.firstPresent);
    var thirdCompletive :- FieldValue(entry.thirdCompletive);
    var thirdIncompletive :- FieldValue(entry.thirdIncompletive);
    var secondImmediate :- FieldValue(entry.secondImmediate);
    var thirdInfinitive :- FieldValue(entry.thirdInfinitive);
    Success(VerbForms(thirdPresent, firstPresent, thirdCompletive, thirdIncompletive,
                      secondImmediate, thirdInfinitive, translation, false))
  }

  /** A present field is replaced by its romanization when there is one. */
  function RomanizedField(field: Option<string>): Option<string> {
    if field.Some? && Romanize(field.value).Some? then Romanize(field.value) else field
  }

  /** A present field that cannot be romanized. */
  predicate FailsToRomanize(field: Option<string>) {
    field.Some? && Romanize(field.value).None?
  }

  /** The six form fields romanized in turn; the translation is left as it is. */
  function RomanizeForms(raw: VerbForms): VerbForms {
    VerbForms(
      RomanizedField(raw.thirdPresent),
      RomanizedField(raw.firstPresent),
      RomanizedField(raw.thirdCompletive),
      RomanizedField(raw.thirdIncompletive),
      RomanizedField(raw.secondImmediate),
      RomanizedField(raw.thirdInfinitive),
      raw.translation,
      raw.hadInvalidChars
        || FailsToRomanize(raw.thirdPresent) || FailsToRomanize(raw.firstPresent)
        || FailsToRomanize(raw.thirdCompletive) || FailsToRomanize(raw.thirdIncompletive)
        || FailsToRomanize(raw.secondImmediate) || FailsToRomanize(raw.thirdInfinitive))
  }

  /** TryParseToRomanizedVerb: None when it returns false (no third-present or
      no translation key), otherwise the romanized verb, or the exception an
      empty array throws. */
  function ParseVerb(entry: VerbJson): Result<Option<VerbForms>, Exception> {
    if entry.thirdPresent.None? || entry.translation.None? then Success(None)
    else
      var raw :- RawForms(entry);
      Success(Some(RomanizeForms(raw)))
  }

  /** Some glyph of a present field is missing from the table. */
  predicate HasUnmappedGlyph(field: Option<string>) {
    field.Some? && exists k :: 0 <= k < |field.value| && Syllable(field.value[k]).None?
  }

  /** What one form field becomes: absent stays absent; a field with a glyph
      missing from the table keeps its syllabary text; any other is written in
      lowercase ASCII letters, one to three per glyph, the romanization of its
      text. */
  predicate FieldRomanized(raw: Option<string>, field: Option<string>) {
    match raw
    case None => field.None?
    case Some(text) =>
      if HasUnmappedGlyph(raw) then field == raw
      else
        && field == Romanize(text)
        && field.Some?
        && |text| <= |field.value| <= 3 * |text|
        && IsLowercaseAscii(field.value)
  }

  lemma FieldRomanizedHolds(raw: Option<string>)
    ensures FieldRomanized(raw, RomanizedField(raw))
    ensures FailsToRomanize(raw) <==> HasUnmappedGlyph(raw)
  {
    if raw.Some? {
      RomanizeDefined(raw.value);
    }
  }

  /** Each form field is romanized when all its glyphs are in the table and
      kept otherwise, the translation is untouched, and HadInvalidChars is set
      exactly when some present form field has a glyph outside the table. */
  lemma RomanizeFormsFields(raw: VerbForms)
    requires !raw.hadInvalidChars
    ensures var v := RomanizeForms(raw);
      && FieldRomanized(raw.thirdPresent, v.thirdPresent)
      && FieldRomanized(raw.firstPresent, v.firstPresent)
      && FieldRomanized(raw.thirdCompletive, v.thirdCompletive)
      && FieldRomanized(raw.thirdIncompletive, v.thirdIncompletive)
      && FieldRomanized(raw.secondImmediate, v.secondImmediate)
      && FieldRomanized(raw.thirdInfinitive, v.thirdInfinitive)
      && v.translation == raw.translation
      && (v.hadInvalidChars <==>
            || HasUnmappedGlyph(raw.thirdPresent) || HasUnmappedGlyph(raw.firstPresent)
            || HasUnmappedGlyph(raw.thirdCompletive) || HasUnmappedGlyph(raw.thirdIncompletive)
            || HasUnmappedGlyph(raw.secondImmediate) || HasUnmappedGlyph(raw.thirdInfinitive))
  {
    FieldRomanizedHolds(raw.thirdPresent);
    FieldRomanizedHolds(raw.firstPresent);
    FieldRomanizedHolds(raw.thirdCompletive);
    FieldRomanizedHolds(raw.thirdIncompletive);
    FieldRomanizedHolds(raw.secondImmediate);
    FieldRomanizedHolds(raw.thirdInfinitive);
  }

  /** The key is present with an empty array as its value. */
  predicate IsEmptyArray(t: Option<Token>) {
    t.Some? && t.value.ArrayToken? && |t.value.elements| == 0
  }

  /** TryParseToRomanizedVerb returns false exactly when the third-present or
      the translation key is absent. Otherwise it throws exactly when one of
      the seven keys holds an empty array, and returns true with the fields
      read from the JSON and then romanized. */
  lemma ParseVerbOutcome(entry: VerbJson)
    ensures ParseVerb(entry) == Success(None) <==> entry.thirdPresent.None? || entry.translation.None?
    ensures ParseVerb(entry).Failure? <==>
      && entry.thirdPresent.Some? && entry.translation.Some?
      && (|| IsEmptyArray(entry.thirdPresent) || IsEmptyArray(entry.translation)
          || IsEmptyArray(entry.firstPresent) || IsEmptyArray(entry.thirdCompletive)
          || IsEmptyArray(entry.thirdIncompletive) || IsEmptyArray(entry.secondImmediate)
          || IsEmptyArray(entry.thirdInfinitive))
    ensures ParseVerb(entry).Failure? ==> ParseVerb(entry).error == ArgumentOutOfRange
    ensures ParseVerb(entry).Success? && ParseVerb(entry).value.Some? ==>
      && RawForms(entry).Success?
      && !RawForms(entry).value.hadInvalidChars
      && ParseVerb(entry).value.value == RomanizeForms(RawForms(entry).value)
  {
  }

  /** The object TryParseToRomanizedVerb fills in, one property at a time. */
  class RomanizedVerb {
    var thirdPresent: Option<string>
    var firstPresent: Option<string>
    var thirdCompletive: Option<string>
    var thirdIncompletive: Option<string>
    var secondImmediate: Option<string>
    var thirdInfinitive: Option<string>
    var translation: Option<string>
    var hadInvalidChars: bool

    /** Every property null, HadInvalidChars false. */
    constructor()
      ensures Forms() == Blank
    {
      thirdPresent := None;
      firstPresent := None;
      thirdCompletive := None;
      thirdIncompletive := None;
      secondImmediate := None;
      thirdInfinitive := None;
      translation := None;
      hadInvalidChars := false;
    }

    /** The current values of the properties. */
    function Forms(): VerbForms
      reads this
    {
      VerbForms(thirdPresent, firstPresent, thirdCompletive, thirdIncompletive,
                secondImmediate, thirdInfinitive, translation, hadInvalidChars)
    }
  }

  /** The first half of TryParseToRomanizedVerb: copies the seven JSON values
      into the blank object, stopping at the first empty array. */
  method ReadFields(verbEntry: VerbJson, verb: RomanizedVerb) returns (thrown: Option<Exception>)
    requires verbEntry.thirdPresent.Some? && verbEntry.translation.Some? && verb.Forms() == Blank
    modifies verb
    ensures thrown.Some? <==> RawForms(verbEntry).Failure?
    ensures thrown.Some? ==> thrown.value == RawForms(verbEntry).error
    ensures thrown.None? ==> verb.Forms() == RawForms(verbEntry).value
  {
    var value := TokenValue(verbEntry.thirdPresent.value);
    if value.Failure? { return Some(value.error); }
    verb.thirdPresent := value.value;
    value := TokenValue(verbEntry.translation.value);
    if value.Failure? { return Some(value.error); }
    verb.translation := value.value;
    value := FieldValue(verbEntry.firstPresent);
    if value.Failure? { return Some(value.error); }
    verb.firstPresent := value.value;
    value := FieldValue(verbEntry.thirdCompletive);
    if value.Failure? { return Some(value.error); }
    verb.thirdCompletive := value.value;
    value := FieldValue(verbEntry.thirdIncompletive);
    if value.Failure? { return Some(value.error); }
    verb.thirdIncompletive := value.value;
    value := FieldValue(verbEntry.secondImmediate);
    if value.Failure? { return Some(value.error); }
    verb.secondImmediate := value.value;
    value := FieldValue(verbEntry.thirdInfinitive);
    if value.Failure? { return Some(value.error); }
    verb.thirdInfinitive := value.value;
    return None;
  }

  /** One `if (x != null)` block: a present field is romanized by TryRomanize
      when it can be, and otherwise kept and reported as failed. */
  method RomanizeProperty(field: Option<string>) returns (newField: Option<string>, failed: bool)
    ensures newField == RomanizedField(field) && failed == FailsToRomanize(field)
  {
    newField, failed := field, false;
    if field.Some? {
      var ok, romanized := TryRomanize(field.value);
      if ok { newField := Some(romanized); } else { failed := true; }
    }
  }

  /** The second half of TryParseToRomanizedVerb: each present form field in
      turn is replaced by its romanization, or HadInvalidChars is set. */
  method RomanizeProperties(verb: RomanizedVerb)
    modifies verb
    ensures verb.Forms() == RomanizeForms(old(verb.Forms()))
  {
    var thirdPresent, thirdPresentFailed := RomanizeProperty(verb.thirdPresent);
    verb.thirdPresent := thirdPresent;
    verb.hadInvalidChars := verb.hadInvalidChars || thirdPresentFailed;
    var firstPresent, firstPresentFailed := RomanizeProperty(verb.firstPresent);
    verb.firstPresent := firstPresent;
    verb.hadInvalidChars := verb.hadInvalidChars || firstPresentFailed;
    var thirdCompletive, thirdCompletiveFailed := RomanizeProperty(verb.thirdCompletive);
    verb.thirdCompletive := thirdCompletive;
    verb.hadInvalidChars := verb.hadInvalidChars || thirdCompletiveFailed;
    var thirdIncompletive, thirdIncompletiveFailed := RomanizeProperty(verb.thirdIncompletive);
    verb.thirdIncompletive := thirdIncompletive;
    verb.hadInvalidChars := verb.hadInvalidChars || thirdIncompletiveFailed;
    var secondImmediate, secondImmediateFailed := RomanizeProperty(verb.secondImmediate);
    verb.secondImmediate := secondImmediate;
    verb.hadInvalidChars := verb.hadInvalidChars || secondImmediateFailed;
    var thirdInfinitive, thirdInfinitiveFailed := RomanizeProperty(verb.thirdInfinitive);
    verb.thirdInfinitive := thirdInfinitive;
    verb.hadInvalidChars := verb.hadInvalidChars || thirdInfinitiveFailed;
  }

  /** TryParseToRomanizedVerb: `r` is the boolean returned, or the exception
      thrown; on true, `verb` holds the romanized fields. */
  method TryParseToRomanizedVerb(verbEntry: VerbJson) returns (r: Result<bool, Exception>, verb: RomanizedVerb)
    ensures fresh(verb)
    ensures r.Failure? <==> ParseVerb(verbEntry).Failure?
    ensures r.Failure? ==> r.error == ParseVerb(verbEntry).error
    ensures r == Success(false) ==> ParseVerb(verbEntry) == Success(None) && verb.Forms() == Blank
    ensures r == Success(true) ==> ParseVerb(verbEntry) == Success(Some(verb.Forms()))
  {
    verb := new RomanizedVerb();
    if verbEntry.thirdPresent.None? || verbEntry.translation.None? {
      return Success(false), verb;
    }
    var thrown := ReadFields(verbEntry, verb);
    if thrown.Some? {
      return Failure(thrown.value), verb;
    }
    RomanizeProperties(verb);
    return Success(true), verb;
  }

  // ---------------------------------------------------------------------------
  // The pair rule

  /** The third present with its pronoun prefix removed: two characters after
      "ga", one after "a", and nothing ("") when it has neither prefix. */
  function StrippedPresent(present: string): string {
    if StartsWith(present, "ga") then present[2..]
    else if StartsWith(present, "a") then present[1..]
    else ""
  }

  /** What the outer loop computes for a verb before its inner loop: None for a
      verb without a completive (skipped), otherwise the completive without its
      first character and the stripped present. Substring(1) of an empty
      completive throws, and so does StartsWith on a null present. */
  function Stripped(verb: VerbForms): Result<Option<(string, string)>, Exception> {
    if verb.thirdCompletive.None? then Success(None)
    else
      var strippedCompletive :- Slice(verb.thirdCompletive.value, 1, |verb.thirdCompletive.value|);
      if verb.thirdPresent.None? then Failure(NullReference)
      else Success(Some((strippedCompletive, StrippedPresent(verb.thirdPresent.value))))
  }

  /** One pass of the inner loop: whether `test` is paired with `verb`. A test
      without a completive, or with the same present, is skipped; Contains on a
      null present throws. */
  function Matches(verb: VerbForms, strippedCompletive: string, strippedPresent: string, test: VerbForms)
    : Result<bool, Exception>
  {
    if test.thirdCompletive.None? || test.thirdPresent == verb.thirdPresent then Success(false)
    else if !Contains(test.thirdCompletive.value, strippedCompletive) then Success(false)
    else if test.thirdPresent.None? then Failure(NullReference)
    else Success(Contains(test.thirdPresent.value, strippedPresent))
  }

  /** The pairs the inner loop for verb `i` adds over the tests `verbs[..n]`. */
  function PartnersUpTo(verbs: seq<VerbForms>, i: nat, strippedCompletive: string, strippedPresent: string, n: nat)
    : Result<set<(nat, nat)>, Exception>
    requires i < |verbs| && n <= |verbs|
  {
    if n == 0 then Success({})
    else
      var found :- PartnersUpTo(verbs, i, strippedCompletive, strippedPresent, n - 1);
      var paired :- Matches(verbs[i], strippedCompletive, strippedPresent, verbs[n - 1]);
      Success(if paired then found + {(i, n - 1)} else found)
  }

  /** The pairs the outer loop has found after the verbs `verbs[..n]`, as
      positions (verb, test) in the list of mapped verbs. */
  function PairsUpTo(verbs: seq<VerbForms>, n: nat): Result<set<(nat, nat)>, Exception>
    requires n <= |verbs|
  {
    if n == 0 then Success({})
    else
      var found :- PairsUpTo(verbs, n - 1);
      var stripped :- Stripped(verbs[n - 1]);
      if stripped.None? then Success(found)
      else
        var partners :- PartnersUpTo(verbs, n - 1, stripped.value.0, stripped.value.1, |verbs|);
        Success(found + partners)
  }

  /** The `pairs` set at the end of Main, or the exception thrown while building it. */
  function Pairs(verbs: seq<VerbForms>): Result<set<(nat, nat)>, Exception> {
    PairsUpTo(verbs, |verbs|)
  }

  /** Test `test` is recorded as a partner of `verb`: both have a completive
      and a present, the presents differ, the test's completive contains the
      verb's completive without its first character, and the test's present
      contains the verb's stripped present. */
  predicate PairRule(verb: VerbForms, test: VerbForms) {
    && verb.thirdCompletive.Some? && |verb.thirdCompletive.value| > 0 && verb.thirdPresent.Some?
    && test.thirdCompletive.Some? && test.thirdPresent.Some?
    && test.thirdPresent != verb.thirdPresent
    && Contains(test.thirdCompletive.value, verb.thirdCompletive.value[1..])
    && Contains(test.thirdPresent.value, StrippedPresent(verb.thirdPresent.value))
  }

  /** The search cannot throw on this verb: either it has no completive, or it
      has a non-empty completive and a present. */
  predicate Pairable(verb: VerbForms) {
    verb.thirdCompletive.Some? ==> |verb.thirdCompletive.value| > 0 && verb.thirdPresent.Some?
  }

  lemma {:induction false} PartnersFailPersists(verbs: seq<VerbForms>, i: nat, sc: string, sp: string, m: nat, n: nat)
    requires i < |verbs| && m <= n <= |verbs| && PartnersUpTo(verbs, i, sc, sp, m).Failure?
    ensures PartnersUpTo(verbs, i, sc, sp, n) == PartnersUpTo(verbs, i, sc, sp, m)
    decreases n
  {
    if n > m {
      PartnersFailPersists(verbs, i, sc, sp, m, n - 1);
    }
  }

  lemma {:induction false} PairsFailPersists(verbs: seq<VerbForms>, m: nat, n: nat)
    requires m <= n <= |verbs| && PairsUpTo(verbs, m).Failure?
    ensures PairsUpTo(verbs, n) == PairsUpTo(verbs, m)
    decreases n
  {
    if n > m {
      PairsFailPersists(verbs, m, n - 1);
    }
  }

  /** The inner loop pairs exactly the tests the rule accepts. */
  lemma MatchesRule(verb: VerbForms, test: VerbForms)
    requires Stripped(verb).Success? && Stripped(verb).value.Some?
    ensures var (sc, sp) := Stripped(verb).value.value;
      && (Matches(verb, sc, sp, test) == Success(true) <==> PairRule(verb, test))
      && (Matches(verb, sc, sp, test).Failure? ==> !Pairable(test))
  {
    var completive := verb.thirdCompletive.value;
    assert completive[1..|completive|] == completive[1..];
  }

  /** The inner loop for verb `i` records, over `verbs[..n]`, exactly the pairs
      (i, j) whose pass accepts test `j`. */
  lemma {:induction false} PartnersMembers(verbs: seq<VerbForms>, i: nat, sc: string, sp: string, n: nat)
    requires i < |verbs| && n <= |verbs| && PartnersUpTo(verbs, i, sc, sp, n).Success?
    ensures forall p :: p in PartnersUpTo(verbs, i, sc, sp, n).value <==>
      p.0 == i && p.1 < n && Matches(verbs[i], sc, sp, verbs[p.1]) == Success(true)
    decreases n
  {
    if n > 0 {
      PartnersMembers(verbs, i, sc, sp, n - 1);
    }
  }

  /** When the search completes, it has recorded exactly the pairs of
      positions (i, j) for which the rule accepts test j for verb i; in
      particular no verb is paired with itself. */
  lemma {:induction false} PairsMembers(verbs: seq<VerbForms>, n: nat)
    requires n <= |verbs| && PairsUpTo(verbs, n).Success?
    ensures forall p :: p in PairsUpTo(verbs, n).value <==>
      p.0 < n && p.1 < |verbs| && PairRule(verbs[p.0], verbs[p.1])
    ensures forall p :: p in PairsUpTo(verbs, n).value ==> p.0 != p.1
    decreases n
  {
    if n > 0 {
      PairsMembers(verbs, n - 1);
      var verb := verbs[n - 1];
      var stripped := Stripped(verb).value;
      if stripped.Some? {
        var (sc, sp) := stripped.value;
        PartnersMembers(verbs, n - 1, sc, sp, |verbs|);
        forall j | 0 <= j < |verbs|
          ensures Matches(verb, sc, sp, verbs[j]) == Success(true) <==> PairRule(verb, verbs[j])
        {
          MatchesRule(verb, verbs[j]);
        }
      }
    }
  }

  /** The inner loop does not throw when every verb is pairable. */
  lemma {:induction false} PartnersSucceed(verbs: seq<VerbForms>, i: nat, n: nat)
    requires i < |verbs| && n <= |verbs| && Stripped(verbs[i]).Success? && Stripped(verbs[i]).value.Some?
    requires forall k :: 0 <= k < |verbs| ==> Pairable(verbs[k])
    ensures var (sc, sp) := Stripped(verbs[i]).value.value;
      PartnersUpTo(verbs, i, sc, sp, n).Success?
    decreases n
  {
    if n > 0 {
      PartnersSucceed(verbs, i, n - 1);
      MatchesRule(verbs[i], verbs[n - 1]);
    }
  }

  /** When every verb is pairable, the outer loop never throws. */
  lemma {:induction false} PairsSucceed(verbs: seq<VerbForms>, n: nat)
    requires n <= |verbs| && forall k :: 0 <= k < |verbs| ==> Pairable(verbs[k])
    ensures PairsUpTo(verbs, n).Success?
    decreases n
  {
    if n > 0 {
      PairsSucceed(verbs, n - 1);
      if Stripped(verbs[n - 1]).value.Some? {
        PartnersSucceed(verbs, n - 1, |verbs|);
      }
    }
  }

  /** One verb that is not pairable makes the search throw. */
  lemma PairsThrow(verbs: seq<VerbForms>, k: nat)
    requires k < |verbs| && !Pairable(verbs[k])
    ensures Pairs(verbs).Failure?
  {
    assert Stripped(verbs[k]).Failure?;
    if PairsUpTo(verbs, k).Success? {
      assert PairsUpTo(verbs, k + 1).Failure?;
      PairsFailPersists(verbs, k + 1, |verbs|);
    } else {
      PairsFailPersists(verbs, k, |verbs|);
    }
  }

  /** The search completes exactly when every verb is pairable: it throws
      exactly when some verb has a completive and either an empty completive
      or no present. */
  lemma PairsSucceedIff(verbs: seq<VerbForms>)
    ensures Pairs(verbs).Success? <==> forall k :: 0 <= k < |verbs| ==> Pairable(verbs[k])
  {
    if forall k :: 0 <= k < |verbs| ==> Pairable(verbs[k]) {
      PairsSucceed(verbs, |verbs|);
    } else {
      var k :| 0 <= k < |verbs| && !Pairable(verbs[k]);
      PairsThrow(verbs, k);
    }
  }

  /** The inner `foreach (var test in mappedVerbs)` loop for verb `i`, adding
      its pairs to `pairs`. */
  method FindPartners(verbs: seq<VerbForms>, i: nat, strippedCompletive: string, strippedPresent: string,
                      pairs: set<(nat, nat)>) returns (r: Result<set<(nat, nat)>, Exception>)
    requires i < |verbs|
    ensures var partners := PartnersUpTo(verbs, i, strippedCompletive, strippedPresent, |verbs|);
      r == if partners.Success? then Success(pairs + partners.value) else Failure(partners.error)
  {
    var found := pairs;
    ghost var row: set<(nat, nat)> := {};
    for j := 0 to |verbs|
      invariant PartnersUpTo(verbs, i, strippedCompletive, strippedPresent, j) == Success(row)
      invariant found == pairs + row
    {
      var test := verbs[j];
      if test.thirdCompletive.None? || test.thirdPresent == verbs[i].thirdPresent {
        continue;
      }
      if Contains(test.thirdCompletive.value, strippedCompletive) {
        if test.thirdPresent.None? {
          PartnersFailPersists(verbs, i, strippedCompletive, strippedPresent, j + 1, |verbs|);
          return Failure(NullReference);
        }
        if Contains(test.thirdPresent.value, strippedPresent) {
          found := found + {(i, j)};
          row := row + {(i, j)};
        }
      }
    }
    return Success(found);
  }

  /** The pair search at the end of Main over the mapped verbs. */
  method FindPairs(verbs: seq<VerbForms>) returns (r: Result<set<(nat, nat)>, Exception>)
    ensures r == Pairs(verbs)
  {
    var pairs: set<(nat, nat)> := {};
    for i := 0 to |verbs|
      invariant PairsUpTo(verbs, i) == Success(pairs)
    {
      var verb := verbs[i];
      if verb.thirdCompletive.None? {
        continue;
      }
      if |verb.thirdCompletive.value| < 1 {
        PairsFailPersists(verbs, i + 1, |verbs|);
        return Failure(ArgumentOutOfRange);
      }
      var strippedCompletive := verb.thirdCompletive.value[1..];
      if verb.thirdPresent.None? {
        PairsFailPersists(verbs, i + 1, |verbs|);
        return Failure(NullReference);
      }
      var present := verb.thirdPresent.value;
      var strippedPresent := "";
      if StartsWith(present, "a") {
        strippedPresent := present[1..];
      }
      if StartsWith(present, "ga") {
        strippedPresent := present[2..];
      }
      assert StartsWith(present, "ga") ==> present[0] == 'g' && !StartsWith(present, "a");
      assert strippedPresent == StrippedPresent(present);
      assert verb.thirdCompletive.value[1..|verb.thirdCompletive.value|] == strippedCompletive;
      assert Stripped(verb) == Success(Some((strippedCompletive, strippedPresent)));
      var found := FindPartners(verbs, i, strippedCompletive, strippedPresent, pairs);
      if found.Failure? {
        PairsFailPersists(verbs, i + 1, |verbs|);
        return found;
      }
      pairs := found.value;
    }
    return Success(pairs);
  }
}
