/** The parts of .NET's System.String and Int32.Parse that the parsers rely on,
    stated over Dafny strings. A C# `char` (a UTF-16 code unit) is a Dafny `char`;
    for the Basic Multilingual Plane, where all Cherokee syllabary lives, the two agree. */
module NetStrings {
  import opened Wrappers

  /** The .NET exceptions the modelled code can raise. */
  datatype Exception =
    | ArgumentNull
    | NullReference
    | ArgumentOutOfRange
    | IndexOutOfRange
    | InvalidOperation(detail: string)
    | Format
    | Overflow

  // ---------------------------------------------------------------------------
  // Searching

  /** String.IndexOf(char): the first position holding `c`, or -1. */
  function IndexOfChar(s: string, c: char): (r: int)
    ensures -1 <= r < |s|
    ensures r == -1 <==> c !in s
    ensures r >= 0 ==> s[r] == c && c !in s[..r]
  {
    if |s| == 0 then -1
    else if s[0] == c then 0
    else
      var k := IndexOfChar(s[1..], c);
      assert k >= 0 ==> s[..k + 1] == [s[0]] + s[1..][..k];
      if k < 0 then -1 else k + 1
  }

  /** `c` is at `i` and nowhere before it. */
  predicate FirstAt(m: string, c: char, i: int) {
    0 <= i < |m| && m[i] == c && c !in m[..i]
  }

  /** A position holding `c` with no earlier `c` is the one IndexOf finds. */
  lemma IndexOfCharIs(s: string, c: char, i: int)
    requires 0 <= i < |s| && s[i] == c && c !in s[..i]
    ensures IndexOfChar(s, c) == i
  {
  }

  /** IndexOf finds `c` just after a prefix that does not contain it. */
  lemma IndexOfCharAt(pre: string, c: char, post: string)
    requires c !in pre
    ensures IndexOfChar(pre + [c] + post, c) == |pre|
  {
    var s := pre + [c] + post;
    assert s[..|pre|] == pre;
    IndexOfCharIs(s, c, |pre|);
  }

  /** Text appended after an occurrence does not move the first occurrence. */
  lemma IndexOfCharAppend(s: string, t: string, c: char)
    requires c in s
    ensures IndexOfChar(s + t, c) == IndexOfChar(s, c)
  {
    var i := IndexOfChar(s, c);
    assert (s + t)[..i] == s[..i];
    IndexOfCharIs(s + t, c, i);
  }

  /** String.IndexOf(char, startIndex): the first position at or after `start`
      holding `c`, or -1. A start equal to the length is allowed and gives -1. */
  function IndexOfCharFrom(s: string, c: char, start: nat): (r: int)
    requires start <= |s|
    ensures r == -1 <==> c !in s[start..]
    ensures r >= 0 ==> start <= r < |s| && s[r] == c && c !in s[start..r]
  {
    var k := IndexOfChar(s[start..], c);
    assert k >= 0 ==> s[start..start + k] == s[start..][..k];
    if k < 0 then -1 else start + k
  }

  /** `t` occurs in `s` at position `j`. */
  predicate OccursAt(s: string, t: string, j: int) {
    0 <= j && j + |t| <= |s| && s[j..j + |t|] == t
  }

  /** Ordinal search for `t` in `s` from position `i` on. */
  function IndexOfFrom(s: string, t: string, i: nat): (r: int)
    ensures r == -1 || (i <= r && OccursAt(s, t, r))
    ensures r >= 0 ==> forall j :: i <= j < r ==> !OccursAt(s, t, j)
    ensures r == -1 ==> forall j :: i <= j ==> !OccursAt(s, t, j)
    decreases |s| - i
  {
    if i + |t| > |s| then -1
    else if s[i..i + |t|] == t then i
    else IndexOfFrom(s, t, i + 1)
  }

  /** String.IndexOf(string): the first position where `t` occurs in `s`, or -1.
      (.NET compares with the current culture here; the model compares ordinally.) */
  function IndexOf(s: string, t: string): int {
    IndexOfFrom(s, t, 0)
  }

  /** String.Contains(string), which is ordinal. */
  predicate Contains(s: string, t: string) {
    IndexOf(s, t) >= 0
  }

  /** String.StartsWith(string), taken ordinally. */
  predicate StartsWith(s: string, prefix: string) {
    |prefix| <= |s| && s[..|prefix|] == prefix
  }

  /** Contains holds exactly when there is a position where `t` occurs. */
  lemma ContainsIff(s: string, t: string, j: int)
    requires OccursAt(s, t, j)
    ensures Contains(s, t) && IndexOf(s, t) <= j
  {
  }

  // ---------------------------------------------------------------------------
  // Slicing: C#'s `s[a..b]` and `s.Substring(a, b - a)` both throw
  // ArgumentOutOfRangeException unless 0 <= a <= b <= s.Length.

  function Slice(s: string, start: int, end: int): (r: Result<string, Exception>)
    ensures r.Failure? ==> r.error == ArgumentOutOfRange
  {
    if 0 <= start <= end <= |s| then Success(s[start..end]) else Failure(ArgumentOutOfRange)
  }

  // ---------------------------------------------------------------------------
  // Trimming

  /** char.IsWhiteSpace: the Unicode White_Space characters. */
  predicate IsWhiteSpace(c: char) {
    || c == ' '
    || ('\t' <= c <= '\r')
    || c == '\U{0085}'
    || c == '\U{00A0}'
    || c == '\U{1680}'
    || ('\U{2000}' <= c <= '\U{200A}')
    || c == '\U{2028}'
    || c == '\U{2029}'
    || c == '\U{202F}'
    || c == '\U{205F}'
    || c == '\U{3000}'
  }

  /** Drops the longest prefix of characters satisfying `drop`. */
  function TrimStartWhere(s: string, drop: char -> bool): (r: string)
    ensures |r| <= |s| && r == s[|s| - |r|..]
    ensures |r| > 0 ==> !drop(r[0])
    ensures forall k :: 0 <= k < |s| - |r| ==> drop(s[k])
  {
    if |s| > 0 && drop(s[0]) then
      var r := TrimStartWhere(s[1..], drop);
      assert forall k :: 1 <= k < |s| - |r| ==> s[k] == s[1..][k - 1];
      r
    else s
  }

  /** Drops the longest suffix of characters satisfying `drop`. */
  function TrimEndWhere(s: string, drop: char -> bool): (r: string)
    ensures |r| <= |s| && r == s[..|r|]
    ensures |r| > 0 ==> !drop(r[|r| - 1])
    ensures forall k :: |r| <= k < |s| ==> drop(s[k])
  {
    if |s| > 0 && drop(s[|s| - 1]) then
      var r := TrimEndWhere(s[..|s| - 1], drop);
      assert forall k :: |r| <= k < |s| - 1 ==> s[k] == s[..|s| - 1][k];
      r
    else s
  }

  function TrimWhere(s: string, drop: char -> bool): string {
    TrimStartWhere(TrimEndWhere(s, drop), drop)
  }

  /** String.Trim(). */
  function Trim(s: string): string {
    TrimWhere(s, IsWhiteSpace)
  }

  /** String.TrimEnd(). */
  function TrimEnd(s: string): string {
    TrimEndWhere(s, IsWhiteSpace)
  }

  /** String.TrimStart(). */
  function TrimStart(s: string): string {
    TrimStartWhere(s, IsWhiteSpace)
  }

  predicate IsParenthesis(c: char) {
    c == '(' || c == ')'
  }

  /** String.Trim(new[] { '(', ')' }). */
  function TrimParentheses(s: string): string {
    TrimWhere(s, IsParenthesis)
  }

  /** A string that neither starts nor ends with a dropped character is its own trim. */
  lemma TrimWhereFixed(s: string, drop: char -> bool)
    requires |s| > 0 ==> !drop(s[0]) && !drop(s[|s| - 1])
    ensures TrimWhere(s, drop) == s
  {
  }

  /** Trimming twice is trimming once. */
  lemma TrimWhereIdempotent(s: string, drop: char -> bool)
    ensures TrimWhere(TrimWhere(s, drop), drop) == TrimWhere(s, drop)
  {
    var e := TrimEndWhere(s, drop);
    var r := TrimStartWhere(e, drop);
    if |r| > 0 {
      assert r[|r| - 1] == e[|e| - 1];
    }
    TrimWhereFixed(r, drop);
  }

  /** A dropped character appended at the end does not change the trim. */
  lemma TrimWhereAppend(s: string, c: char, drop: char -> bool)
    requires drop(c)
    ensures TrimWhere(s + [c], drop) == TrimWhere(s, drop)
  {
    assert (s + [c])[..|s + [c]| - 1] == s;
  }

  /** Text that starts with a kept character does not move the start of a trim. */
  lemma {:induction false} TrimStartWhereAppend(s: string, t: string, drop: char -> bool)
    requires |t| > 0 && !drop(t[0])
    ensures TrimStartWhere(s + t, drop) == TrimStartWhere(s, drop) + t
    decreases |s|
  {
    if |s| == 0 {
      assert s + t == t;
    } else if drop(s[0]) {
      assert (s + t)[1..] == s[1..] + t;
      TrimStartWhereAppend(s[1..], t, drop);
    }
  }

  /** Trimming a string that ends in a kept character trims its start only. */
  lemma TrimWhereKeptLast(s: string, c: char, drop: char -> bool)
    requires !drop(c)
    ensures TrimWhere(s + [c], drop) == TrimStartWhere(s, drop) + [c]
  {
    TrimStartWhereAppend(s, [c], drop);
  }

  // ---------------------------------------------------------------------------
  // Splitting and joining

  /** String.Split(char): the pieces between occurrences of `sep`, empty ones included. */
  function Split(s: string, sep: char): (pieces: seq<string>)
    ensures |pieces| >= 1
    ensures forall k :: 0 <= k < |pieces| ==> sep !in pieces[k]
    decreases |s|
  {
    var i := IndexOfChar(s, sep);
    if i < 0 then [s] else [s[..i]] + Split(s[i + 1..], sep)
  }

  /** The pieces that are not empty, in order (StringSplitOptions.RemoveEmptyEntries). */
  function WithoutEmpty(pieces: seq<string>): (r: seq<string>)
    ensures |r| <= |pieces|
    ensures forall k :: 0 <= k < |r| ==> r[k] != "" && r[k] in pieces
  {
    if |pieces| == 0 then []
    else (if pieces[0] == "" then [] else [pieces[0]]) + WithoutEmpty(pieces[1..])
  }

  /** String.Split(sep, StringSplitOptions.RemoveEmptyEntries). */
  function SplitNonEmpty(s: string, sep: char): (pieces: seq<string>)
    ensures forall k :: 0 <= k < |pieces| ==> pieces[k] != "" && sep !in pieces[k]
  {
    WithoutEmpty(Split(s, sep))
  }

  /** String.Join(sep, pieces). */
  function Join(pieces: seq<string>, sep: string): string {
    if |pieces| == 0 then ""
    else if |pieces| == 1 then pieces[0]
    else pieces[0] + sep + Join(pieces[1..], sep)
  }

  lemma JoinCons(first: string, rest: seq<string>, sep: string)
    requires |rest| >= 1
    ensures Join([first] + rest, sep) == first + sep + Join(rest, sep)
  {
    assert ([first] + rest)[1..] == rest;
  }

  /** Two non-empty pieces around a single separator split into exactly those two. */
  lemma SplitNonEmptyPair(a: string, sep: char, b: string)
    requires a != "" && b != "" && sep !in a && sep !in b
    ensures SplitNonEmpty(a + [sep] + b, sep) == [a, b]
  {
    var s := a + [sep] + b;
    IndexOfCharAt(a, sep, b);
    assert s[..|a|] == a && s[|a| + 1..] == b;
    assert Split(b, sep) == [b];
    assert Split(s, sep) == [a, b];
    assert [a, b][1..] == [b] && [b][1..] == [];
    assert WithoutEmpty([b]) == [b];
  }

  /** A leading separator only adds an empty piece, which is dropped. */
  lemma SplitNonEmptyLeading(s: string, sep: char)
    ensures SplitNonEmpty([sep] + s, sep) == SplitNonEmpty(s, sep)
  {
    var t := [sep] + s;
    assert t[..0] == "" && t[1..] == s;
    assert Split(t, sep) == [""] + Split(s, sep);
    assert ([""] + Split(s, sep))[1..] == Split(s, sep);
  }

  /** Splitting and joining back with the same separator gives the string back. */
  lemma {:induction false} JoinSplit(s: string, sep: char)
    ensures Join(Split(s, sep), [sep]) == s
    decreases |s|
  {
    var i := IndexOfChar(s, sep);
    if i >= 0 {
      var rest := Split(s[i + 1..], sep);
      JoinSplit(s[i + 1..], sep);
      var pieces := [s[..i]] + rest;
      assert pieces[1..] == rest;
      JoinCons(s[..i], rest, [sep]);
      assert s == s[..i] + [sep] + s[i + 1..];
    }
  }

  // ---------------------------------------------------------------------------
  // Int32.Parse(string) with NumberStyles.Integer and the invariant culture:
  // optional surrounding white space, an optional sign, one or more digits.

  const INT32_MIN: int := -0x8000_0000
  const INT32_MAX: int := 0x7FFF_FFFF

  predicate IsAsciiDigit(c: char) {
    '0' <= c <= '9'
  }

  predicate AllAsciiDigits(s: string) {
    forall k :: 0 <= k < |s| ==> IsAsciiDigit(s[k])
  }

  /** The value of a string of decimal digits, most significant first. */
  function DecimalValue(digits: string): nat
    requires AllAsciiDigits(digits)
  {
    if |digits| == 0 then 0
    else DecimalValue(digits[..|digits| - 1]) * 10 + (digits[|digits| - 1] - '0') as int
  }

  /** The white space Int32.Parse skips: U+0009 to U+000D and the space. */
  predicate IsNumberWhite(c: char) {
    c == ' ' || ('\t' <= c <= '\r')
  }

  function ParseInt32(s: string): (r: Result<int, Exception>)
    ensures r.Success? ==> INT32_MIN <= r.value <= INT32_MAX
    ensures r.Failure? ==> r.error == Format || r.error == Overflow
  {
    ParseTrimmedInt32(TrimWhere(s, IsNumberWhite))
  }

  /** Int32.Parse once the surrounding white space is gone: an optional sign,
      then one or more digits whose value must fit in 32 bits. */
  function ParseTrimmedInt32(t: string): (r: Result<int, Exception>)
    ensures r.Success? ==> INT32_MIN <= r.value <= INT32_MAX
    ensures r.Failure? ==> r.error == Format || r.error == Overflow
  {
    var negative := |t| > 0 && t[0] == '-';
    var digits := if |t| > 0 && (t[0] == '-' || t[0] == '+') then t[1..] else t;
    if |digits| == 0 || !AllAsciiDigits(digits) then Failure(Format)
    else
      var magnitude: int := DecimalValue(digits);
      var v := if negative then -magnitude else magnitude;
      if INT32_MIN <= v <= INT32_MAX then Success(v) else Failure(Overflow)
  }

  /** A string of digits without surrounding white space parses to its value
      when that value fits. */
  lemma ParseInt32Unsigned(s: string)
    requires |s| > 0 && AllAsciiDigits(s) && TrimWhere(s, IsNumberWhite) == s
    requires DecimalValue(s) <= INT32_MAX
    ensures ParseInt32(s) == Success(DecimalValue(s))
  {
    ParseTrimmedUnsigned(s);
  }

  /** A character that is not a digit, other than a leading sign, makes
      Int32.Parse throw FormatException. */
  lemma ParseInt32NonDigit(s: string, k: nat)
    requires TrimWhere(s, IsNumberWhite) == s
    requires k < |s| && !IsAsciiDigit(s[k]) && (k == 0 ==> s[0] != '-' && s[0] != '+')
    ensures ParseInt32(s) == Failure(Format)
  {
    var signed := s[0] == '-' || s[0] == '+';
    var digits := if signed then s[1..] else s;
    assert digits[if signed then k - 1 else k] == s[k];
  }

  lemma ParseTrimmedUnsigned(t: string)
    requires |t| > 0 && AllAsciiDigits(t) && DecimalValue(t) <= INT32_MAX
    ensures ParseTrimmedInt32(t) == Success(DecimalValue(t))
  {
    assert IsAsciiDigit(t[0]);
  }
}
