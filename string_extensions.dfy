/** The extension methods of Cherokee/Extensions/StringExtensions.cs:
    IsNumeric, AllIndicesOf and ReplaceFirst. A C# string that may be null
    is an `Option<string>`. */
module StringExtensions {
  import opened Wrappers
  import opened NetStrings

  // ---------------------------------------------------------------------------
  // IsNumeric

  /** False for null and for the empty string; otherwise whether every character is a digit. */
  function IsNumeric(str: Option<string>): bool {
    match str
    case None => false
    case Some(s) => |s| > 0 && AllAsciiDigits(s)
  }

  function Pow10(n: nat): (r: nat)
    ensures r >= 1
  {
    if n == 0 then 1 else 10 * Pow10(n - 1)
  }

  /** A string of n digits denotes a number below 10^n. */
  lemma {:induction false} DecimalValueBound(digits: string)
    requires AllAsciiDigits(digits)
    ensures DecimalValue(digits) < Pow10(|digits|)
    decreases |digits|
  {
    if |digits| > 0 {
      var init := digits[..|digits| - 1];
      assert AllAsciiDigits(init) by {
        forall k | 0 <= k < |init| ensures IsAsciiDigit(init[k]) {
          assert init[k] == digits[k];
        }
      }
      DecimalValueBound(init);
    }
  }

  lemma {:induction false} Pow10Monotone(m: nat, n: nat)
    requires m <= n
    ensures Pow10(m) <= Pow10(n)
    decreases n
  {
    if m < n {
      Pow10Monotone(m, n - 1);
    }
  }

  /** A numeric string of at most nine digits is accepted by Int32.Parse, which
      returns its decimal value: the two notions of "a number" agree. */
  lemma IsNumericParses(s: string)
    requires IsNumeric(Some(s)) && |s| <= 9
    ensures ParseInt32(s) == Success(DecimalValue(s))
  {
    DigitsUntrimmed(s);
    DigitsBelowBillion(s);
    ParseInt32Unsigned(s);
  }

  /** Digits are not white space, so trimming leaves a string of digits alone. */
  lemma DigitsUntrimmed(s: string)
    requires |s| > 0 && AllAsciiDigits(s)
    ensures TrimWhere(s, IsNumberWhite) == s
  {
    assert IsAsciiDigit(s[0]) && IsAsciiDigit(s[|s| - 1]);
    TrimWhereFixed(s, IsNumberWhite);
  }

  /** At most nine digits denote a number below 10^9. */
  lemma DigitsBelowBillion(s: string)
    requires AllAsciiDigits(s) && |s| <= 9
    ensures DecimalValue(s) < 1000000000
  {
    DecimalValueBound(s);
    Pow10Monotone(|s|, 9);
    Pow10Nine();
  }

  lemma Pow10Nine()
    ensures Pow10(9) == 1000000000
  {
    assert Pow10(3) == 1000;
    assert Pow10(6) == 1000000;
  }

  /** The cases of the unit tests: null, empty, digits only, and strings with a non-digit. */
  lemma IsNumericExamples()
    ensures !IsNumeric(None)
    ensures !IsNumeric(Some(""))
    ensures IsNumeric(Some("1")) && IsNumeric(Some("1234567890"))
    ensures !IsNumeric(Some("a")) && !IsNumeric(Some("123abc"))
  {
    assert !IsAsciiDigit("a"[0]);
    assert !IsAsciiDigit("123abc"[3]);
    var digits := "1234567890";
    assert forall k :: 0 <= k < |digits| ==> IsAsciiDigit(digits[k]);
  }

  // ---------------------------------------------------------------------------
  // AllIndicesOf

  /** `indices` lists, in increasing order, exactly the positions of `s` that hold `c`. */
  predicate ListsAllOccurrences(s: string, c: char, indices: seq<int>) {
    && (forall k :: 0 <= k < |indices| ==> 0 <= indices[k] < |s| && s[indices[k]] == c)
    && (forall k, l :: 0 <= k < l < |indices| ==> indices[k] < indices[l])
    && (forall i :: 0 <= i < |s| && s[i] == c ==> i in indices)
  }

  /** The iterator's loop as written: while `idx > 0`, yield it and move to the
      next occurrence after it. */
  function YieldWhilePositive(s: string, c: char, idx: int): seq<int>
    requires -1 <= idx < |s|
    decreases if idx < 0 then 0 else |s| - idx + 1
  {
    if idx > 0 then [idx] + YieldWhilePositive(s, c, IndexOfCharFrom(s, c, idx + 1)) else []
  }

  /** The sequence AllIndicesOf yields, as written. */
  function YieldedIndices(str: Option<string>, c: char): seq<int> {
    match str
    case None => []
    case Some(s) => if c !in s then [] else YieldWhilePositive(s, c, IndexOfChar(s, c))
  }

  /** One pass of the iterator's loop. */
  lemma YieldStep(s: string, c: char, idx: int)
    requires 0 < idx < |s|
    ensures YieldWhilePositive(s, c, idx) == [idx] + YieldWhilePositive(s, c, IndexOfCharFrom(s, c, idx + 1))
  {
  }

  lemma AppendCons<T>(xs: seq<T>, x: T, ys: seq<T>)
    ensures xs + ([x] + ys) == (xs + [x]) + ys
  {
  }

  /** AllIndicesOf, an iterator in the source, returns here the whole sequence it yields. */
  method AllIndicesOf(str: Option<string>, value: char) returns (indices: seq<int>)
    ensures indices == YieldedIndices(str, value)
  {
    indices := [];
    if str.None? {
      return;
    }
    var s := str.value;
    if value !in s {
      return;
    }
    var idx := IndexOfChar(s, value);
    ghost var yielded := YieldWhilePositive(s, value, idx);
    while idx > 0
      invariant -1 <= idx < |s|
      invariant indices + YieldWhilePositive(s, value, idx) == yielded
      decreases if idx < 0 then 0 else |s| - idx + 1
    {
      var next := IndexOfCharFrom(s, value, idx + 1);
      YieldStep(s, value, idx);
      AppendCons(indices, idx, YieldWhilePositive(s, value, next));
      indices := indices + [idx];
      idx := next;
    }
  }

  /** The loop with the guard `idx >= 0` that was evidently intended. */
  function OccurrencesFrom(s: string, c: char, idx: int): seq<int>
    requires -1 <= idx < |s|
    decreases if idx < 0 then 0 else |s| - idx + 1
  {
    if idx >= 0 then [idx] + OccurrencesFrom(s, c, IndexOfCharFrom(s, c, idx + 1)) else []
  }

  /** AllIndicesOf with the corrected guard. */
  function AllIndicesOfCorrected(str: Option<string>, c: char): seq<int> {
    match str
    case None => []
    case Some(s) => OccurrencesFrom(s, c, IndexOfChar(s, c))
  }

  /** `r` lists, in increasing order, exactly the positions at or after `from` that hold `c`. */
  predicate ListsOccurrencesFrom(s: string, c: char, from: nat, r: seq<int>) {
    && (forall k :: 0 <= k < |r| ==> from <= r[k] < |s| && s[r[k]] == c)
    && (forall k, l :: 0 <= k < l < |r| ==> r[k] < r[l])
    && (forall i :: from <= i < |s| && s[i] == c ==> i in r)
  }

  /** One step of the corrected loop: the first occurrence, then the rest. */
  lemma OccurrencesFromStep(s: string, c: char, from: nat, idx: int, rest: seq<int>, r: seq<int>)
    requires from <= |s| && idx == IndexOfCharFrom(s, c, from) && idx >= 0
    requires ListsOccurrencesFrom(s, c, idx + 1, rest) && r == [idx] + rest
    ensures ListsOccurrencesFrom(s, c, from, r)
  {
    ConsPositions(s, c, from, idx, rest, r);
    forall i | from <= i < |s| && s[i] == c ensures i in r {
      if i > idx {
        assert i in rest;
      }
    }
  }

  /** Prepending an occurrence before the later ones keeps the list ordered
      and made of occurrences. */
  lemma ConsPositions(s: string, c: char, from: nat, idx: int, rest: seq<int>, r: seq<int>)
    requires from <= idx < |s| && s[idx] == c && r == [idx] + rest
    requires forall k :: 0 <= k < |rest| ==> idx + 1 <= rest[k] < |s| && s[rest[k]] == c
    requires forall k, l :: 0 <= k < l < |rest| ==> rest[k] < rest[l]
    ensures forall k :: 0 <= k < |r| ==> from <= r[k] < |s| && s[r[k]] == c
    ensures forall k, l :: 0 <= k < l < |r| ==> r[k] < r[l]
  {
    forall k | 0 <= k < |r| ensures from <= r[k] < |s| && s[r[k]] == c {
      if k > 0 {
        assert r[k] == rest[k - 1];
      }
    }
    forall k, l | 0 <= k < l < |r| ensures r[k] < r[l] {
      assert r[l] == rest[l - 1];
      if k > 0 {
        assert r[k] == rest[k - 1];
      }
    }
  }

  /** Where IndexOf finds nothing from `from` on, the empty list is complete. */
  lemma NoOccurrencesFrom(s: string, c: char, from: nat)
    requires from <= |s| && IndexOfCharFrom(s, c, from) < 0
    ensures ListsOccurrencesFrom(s, c, from, [])
  {
    forall i | from <= i < |s| ensures s[i] != c {
      assert s[i] == s[from..][i - from];
    }
  }

  /** From the first occurrence at or after `from`, the corrected loop lists every
      occurrence at or after `from`, in increasing order. */
  lemma {:induction false} OccurrencesFromLists(s: string, c: char, from: nat, idx: int)
    requires from <= |s| && idx == IndexOfCharFrom(s, c, from)
    ensures ListsOccurrencesFrom(s, c, from, OccurrencesFrom(s, c, idx))
    decreases |s| - from
  {
    var r := OccurrencesFrom(s, c, idx);
    if idx >= 0 {
      var next := IndexOfCharFrom(s, c, idx + 1);
      var rest := OccurrencesFrom(s, c, next);
      assert r == [idx] + rest;
      OccurrencesFromLists(s, c, idx + 1, next);
      OccurrencesFromStep(s, c, from, idx, rest, r);
    } else {
      assert r == [];
      NoOccurrencesFrom(s, c, from);
    }
  }
  lemma AllIndicesOfCorrectedLists(s: string, c: char)
    ensures ListsAllOccurrences(s, c, AllIndicesOfCorrected(Some(s), c))
  {
    assert s[0..] == s;
    OccurrencesFromLists(s, c, 0, IndexOfCharFrom(s, c, 0));
  }

  /** Once past index 0, the as-written loop and the corrected one agree. */
  lemma {:induction false} YieldWhilePositiveAgrees(s: string, c: char, idx: int)
    requires -1 <= idx < |s| && idx != 0
    ensures YieldWhilePositive(s, c, idx) == OccurrencesFrom(s, c, idx)
    decreases if idx < 0 then 0 else |s| - idx + 1
  {
    if idx > 0 {
      YieldWhilePositiveAgrees(s, c, IndexOfCharFrom(s, c, idx + 1));
    }
  }

  /** AllIndicesOf yields nothing for null, for a string without the character,
      and (because of the `idx > 0` guard) when the first occurrence is at index 0;
      otherwise it yields every occurrence in increasing order. */
  lemma AllIndicesOfYields(str: Option<string>, c: char)
    ensures str.None? ==> YieldedIndices(str, c) == []
    ensures str.Some? && c !in str.value ==> YieldedIndices(str, c) == []
    ensures str.Some? && |str.value| > 0 && str.value[0] == c ==> YieldedIndices(str, c) == []
    ensures str.Some? && |str.value| > 0 && str.value[0] != c ==>
      ListsAllOccurrences(str.value, c, YieldedIndices(str, c))
  {
    if str.Some? && |str.value| > 0 && str.value[0] != c {
      var s := str.value;
      AllIndicesOfCorrectedLists(s, c);
      if c in s {
        YieldWhilePositiveAgrees(s, c, IndexOfChar(s, c));
      }
    }
  }

  /** The input that shows the guard is wrong: 'a' is at index 0 of "abc", yet nothing is yielded. */
  lemma AllIndicesOfMissesIndexZero()
    ensures "abc"[0] == 'a'
    ensures YieldedIndices(Some("abc"), 'a') == []
    ensures AllIndicesOfCorrected(Some("abc"), 'a') == [0]
  {
    assert IndexOfChar("abc", 'a') == 0;
    assert IndexOfCharFrom("abc", 'a', 1) == -1 by {
      assert "abc"[1..] == "bc";
    }
  }

  // ---------------------------------------------------------------------------
  // ReplaceFirst

  /** ReplaceFirst on a string that is not null. */
  function ReplaceFirstIn(s: string, toReplace: string, replaceBy: string): (r: string)
    ensures !Contains(s, toReplace) ==> r == s
    ensures Contains(s, toReplace) ==> |r| == |s| - |toReplace| + |replaceBy|
  {
    var i := IndexOf(s, toReplace);
    if i < 0 then s else s[..i] + replaceBy + s[i + |toReplace|..]
  }

  /** ReplaceFirst: null stays null. */
  function ReplaceFirst(str: Option<string>, toReplace: string, replaceBy: string): (r: Option<string>)
    ensures r.None? <==> str.None?
  {
    match str
    case None => None
    case Some(s) => Some(ReplaceFirstIn(s, toReplace, replaceBy))
  }

  /** Where `s` is `pre + toReplace + post` and `toReplace` does not occur earlier,
      ReplaceFirst puts `replaceBy` in its place and keeps `pre` and `post`. */
  lemma ReplaceFirstSplices(s: string, pre: string, toReplace: string, post: string, replaceBy: string)
    requires s == pre + toReplace + post
    requires forall j :: 0 <= j < |pre| ==> !OccursAt(s, toReplace, j)
    ensures ReplaceFirstIn(s, toReplace, replaceBy) == pre + replaceBy + post
  {
    assert s[|pre|..|pre| + |toReplace|] == toReplace;
    assert OccursAt(s, toReplace, |pre|);
    var i := IndexOf(s, toReplace);
    assert i == |pre|;
    assert s[..i] == pre;
    assert s[i + |toReplace|..] == post;
  }

  /** A string without the first character of `t` does not contain `t`. */
  lemma MissingFirstChar(s: string, t: string)
    requires |t| > 0 && t[0] !in s
    ensures !Contains(s, t)
  {
  }

  /** Before position `n`, `t` cannot occur where its first character does not. */
  lemma HeadAbsent(s: string, t: string, n: nat)
    requires |t| > 0 && n <= |s| && t[0] !in s[..n]
    ensures forall j :: 0 <= j < n ==> !OccursAt(s, t, j)
  {
    forall j | 0 <= j < n ensures !OccursAt(s, t, j) {
      assert s[j] == s[..n][j];
      if j + |t| <= |s| {
        assert s[j..j + |t|][0] == s[j];
      }
    }
  }

  /** The cases of the unit tests. */
  lemma ReplaceFirstExamples()
    ensures ReplaceFirst(None, "toReplace", "replaceBy") == None
    ensures ReplaceFirst(Some("this is the input"), "owl", "dumb") == Some("this is the input")
    ensures ReplaceFirst(Some("this is a test"), "a tes", "") == Some("this is t")
  {
    MissingFirstChar("this is the input", "owl");
    var s := "this is a test";
    assert s == "this is " + "a tes" + "t";
    assert s[..8] == "this is ";
    HeadAbsent(s, "a tes", 8);
    ReplaceFirstSplices(s, "this is ", "a tes", "t", "");
    assert "this is " + "" + "t" == "this is t";
  }
}
