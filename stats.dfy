/**
  `time_to_seconds` of swimstats/stats.py: a swim time written as `M:SS.cc`, `M:SS`
  or `S.cc` (dot or comma before the fraction) read as a number. The model counts in
  integer centiseconds, so `1:05.30` is 6530 rather than the float 65.3.
 */
module Stats {
  import opened Wrappers
  import opened Text

  predicate IsFracSep(c: char) { c == '.' || c == ',' }

  /** The `cs` group in centiseconds: one digit counts as tenths. */
  function FracCentis(f: string): (cs: nat)
    requires AllDigits(f) && 1 <= |f| <= 2
    ensures cs < 100
    ensures |f| == 1 ==> cs % 10 == 0
  {
    if |f| == 1 then 10 * DigitValue(f[0]) else 10 * DigitValue(f[0]) + DigitValue(f[1])
  }

  // ---------------------------------------------------------------------------
  // The three patterns, as statements about where their parts lie in `t`
  // ---------------------------------------------------------------------------

  /** `^(\d+):(\d{2})[.,](\d{1,2})$` matches `t` with the colon at index `k`. */
  predicate MinSecFracAt(t: string, k: nat) {
    0 < k && k + 5 <= |t| <= k + 6
    && DigitsIn(t, 0, k) && t[k] == ':' && DigitsIn(t, k + 1, k + 3)
    && IsFracSep(t[k + 3]) && DigitsIn(t, k + 4, |t|)
  }

  /** `^(\d+):(\d{2})$` matches `t` with the colon at index `k`. */
  predicate MinSecAt(t: string, k: nat) {
    0 < k && |t| == k + 3 && DigitsIn(t, 0, k) && t[k] == ':' && DigitsIn(t, k + 1, k + 3)
  }

  /** `^(\d{1,2})[.,](\d{1,2})$` matches `t` with the separator at index `j`. */
  predicate SecFracAt(t: string, j: nat) {
    1 <= j <= 2 && j + 2 <= |t| <= j + 3 && DigitsIn(t, 0, j) && IsFracSep(t[j]) && DigitsIn(t, j + 1, |t|)
  }

  function MinSecFracValue(t: string, k: nat): nat
    requires MinSecFracAt(t, k)
  {
    6000 * DigitsValue(t[..k]) + 100 * DigitsValue(t[k + 1..k + 3]) + FracCentis(t[k + 4..])
  }

  function MinSecValue(t: string, k: nat): nat
    requires MinSecAt(t, k)
  {
    6000 * DigitsValue(t[..k]) + 100 * DigitsValue(t[k + 1..])
  }

  function SecFracValue(t: string, j: nat): nat
    requires SecFracAt(t, j)
  {
    100 * DigitsValue(t[..j]) + FracCentis(t[j + 1..])
  }

  /** Some pattern of `_TIME_PATTERNS` matches `t`. */
  ghost predicate IsTimeText(t: string) {
    (exists k :: MinSecFracAt(t, k)) || (exists k :: MinSecAt(t, k)) || (exists j :: SecFracAt(t, j))
  }

  // ---------------------------------------------------------------------------
  // The parser
  // ---------------------------------------------------------------------------

  /**
    Where each pattern's parts must lie: the colon or separator sits where the leading
    run of digits ends, and each later digit group is a whole run.
   */
  lemma ShapesAtRun(u: string)
    ensures forall k: nat :: MinSecFracAt(u, k) ==>
      k == DigitRun(u, 0) && DigitRun(u, k + 1) == 2 && DigitRun(u, k + 4) == |u| - (k + 4)
    ensures forall k: nat :: MinSecAt(u, k) ==> k == DigitRun(u, 0) && DigitRun(u, k + 1) == 2
    ensures forall j: nat :: SecFracAt(u, j) ==> j == DigitRun(u, 0) && DigitRun(u, j + 1) == |u| - (j + 1)
  {
    forall k: nat | MinSecFracAt(u, k)
      ensures k == DigitRun(u, 0) && DigitRun(u, k + 1) == 2 && DigitRun(u, k + 4) == |u| - (k + 4)
    {
      DigitRunOfDigits(u, 0, k);
      DigitRunOfDigits(u, k + 1, k + 3);
      DigitRunOfDigits(u, k + 4, |u|);
    }
    forall k: nat | MinSecAt(u, k) ensures k == DigitRun(u, 0) && DigitRun(u, k + 1) == 2 {
      DigitRunOfDigits(u, 0, k);
      DigitRunOfDigits(u, k + 1, k + 3);
    }
    forall j: nat | SecFracAt(u, j) ensures j == DigitRun(u, 0) && DigitRun(u, j + 1) == |u| - (j + 1) {
      DigitRunOfDigits(u, 0, j);
      DigitRunOfDigits(u, j + 1, |u|);
    }
  }

  /**
    Reads the stripped text left to right: a maximal run of digits, then either a colon
    with exactly two digits (and an optional separator with one or two digits), or a
    separator after at most two digits. Python's backtracking has no other choice to make:
    `\d+` and `\d{1,2}` must stop where the next character (`:`, `.` or `,`) is not a digit.
   */
  function ScanTime(u: string): (r: Option<nat>)
    ensures r.Some? <==> IsTimeText(u)
    ensures forall k :: MinSecFracAt(u, k) ==> r == Some(MinSecFracValue(u, k))
    ensures forall k :: MinSecAt(u, k) ==> r == Some(MinSecValue(u, k))
    ensures forall j :: SecFracAt(u, j) ==> r == Some(SecFracValue(u, j))
  {
    var n := DigitRun(u, 0);
    ShapesAtRun(u);
    if n == 0 || n == |u| then
      None
    else if u[n] == ':' then
      if DigitRun(u, n + 1) != 2 then
        None
      else if n + 3 == |u| then
        assert MinSecAt(u, n);
        Some(MinSecValue(u, n))
      else if IsFracSep(u[n + 3]) && n + 5 <= |u| <= n + 6 && DigitRun(u, n + 4) == |u| - (n + 4) then
        assert MinSecFracAt(u, n);
        Some(MinSecFracValue(u, n))
      else
        None
    else if IsFracSep(u[n]) && n <= 2 && n + 2 <= |u| <= n + 3 && DigitRun(u, n + 1) == |u| - (n + 1) then
      assert SecFracAt(u, n);
      Some(SecFracValue(u, n))
    else
      None
  }

  /** `time_to_seconds(t)`, in centiseconds; `None` when no pattern matches the stripped text. */
  function TimeToCentis(t: string): (r: Option<nat>)
    ensures r.Some? <==> IsTimeText(Strip(t))
    ensures forall k :: MinSecFracAt(Strip(t), k) ==> r == Some(MinSecFracValue(Strip(t), k))
    ensures forall k :: MinSecAt(Strip(t), k) ==> r == Some(MinSecValue(Strip(t), k))
    ensures forall j :: SecFracAt(Strip(t), j) ==> r == Some(SecFracValue(Strip(t), j))
  {
    ScanTime(Strip(t))
  }

  // ---------------------------------------------------------------------------
  // Worked values
  // ---------------------------------------------------------------------------

  /** A stripped text in the first shape reads as that shape's value. */
  lemma TimeOfMinSecFrac(t: string, k: nat)
    requires IsStripped(t) && MinSecFracAt(t, k)
    ensures TimeToCentis(t) == Some(MinSecFracValue(t, k))
  {
    StrippedIsFixed(t);
  }

  /** A stripped text in the second shape reads as that shape's value. */
  lemma TimeOfMinSec(t: string, k: nat)
    requires IsStripped(t) && MinSecAt(t, k)
    ensures TimeToCentis(t) == Some(MinSecValue(t, k))
  {
    StrippedIsFixed(t);
  }

  /** A stripped text in the third shape reads as that shape's value. */
  lemma TimeOfSecFrac(t: string, j: nat)
    requires IsStripped(t) && SecFracAt(t, j)
    ensures TimeToCentis(t) == Some(SecFracValue(t, j))
  {
    StrippedIsFixed(t);
  }

  /** The value of a two-digit group. */
  lemma TwoDigitsValue(s: string)
    requires |s| == 2 && AllDigits(s)
    ensures DigitsValue(s) == 10 * DigitValue(s[0]) + DigitValue(s[1])
  {
    var p := s[..1];
    assert s[..|s| - 1] == p;
    assert p[..|p| - 1] == [];
    assert DigitsValue(p) == DigitValue(s[0]);
  }

  lemma MinSecFracExample(t: string)
    requires t == "1:05.30"
    ensures TimeToCentis(t) == Some(6530)
  {
    assert IsStripped(t) && MinSecFracAt(t, 1) && MinSecFracValue(t, 1) == 6530 by {
      assert MinSecFracAt(t, 1);
      TwoDigitsValue(t[2..4]);
      TwoDigitsValue(t[5..]);
      assert DigitsValue(t[..1]) == 1 by { assert t[..1][..0] == []; }
    }
    TimeOfMinSecFrac(t, 1);
  }

  /** The seconds field is not range-checked. */
  lemma MinSecExample(t: string)
    requires t == "1:75"
    ensures TimeToCentis(t) == Some(13500)
  {
    assert IsStripped(t) && MinSecAt(t, 1) && MinSecValue(t, 1) == 13500 by {
      assert MinSecAt(t, 1);
      TwoDigitsValue(t[2..]);
      assert DigitsValue(t[..1]) == 1 by { assert t[..1][..0] == []; }
    }
    TimeOfMinSec(t, 1);
  }

  /** A single fraction digit counts as tenths. */
  lemma SecFracExample(t: string)
    requires t == "58.7"
    ensures TimeToCentis(t) == Some(5870)
  {
    assert IsStripped(t) && SecFracAt(t, 2) && SecFracValue(t, 2) == 5870 by {
      assert SecFracAt(t, 2);
      TwoDigitsValue(t[..2]);
    }
    TimeOfSecFrac(t, 2);
  }

  lemma CommaExample(t: string)
    requires t == "32,40"
    ensures TimeToCentis(t) == Some(3240)
  {
    assert IsStripped(t) && SecFracAt(t, 2) && SecFracValue(t, 2) == 3240 by {
      assert SecFracAt(t, 2);
      TwoDigitsValue(t[..2]);
      TwoDigitsValue(t[3..]);
    }
    TimeOfSecFrac(t, 2);
  }

  /** Surrounding whitespace is stripped first: padding never changes the reading. */
  lemma TimeIgnoresPadding(a: string, u: string, b: string)
    requires AllSpace(a) && AllSpace(b) && IsStripped(u) && u != []
    ensures TimeToCentis(a + u + b) == TimeToCentis(u)
  {
    StripPadded(a, u, b);
    StrippedIsFixed(u);
  }

  /** Three digits before the fraction match none of the patterns. */
  lemma ThreeDigitSecondsRejected(t: string)
    requires t == "100.5"
    ensures TimeToCentis(t) == None
  {
    assert IsStripped(t) && DigitRun(t, 0) == 3 by {
      DigitRunOfDigits(t, 0, 3);
    }
    StrippedIsFixed(t);
  }
}
