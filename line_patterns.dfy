/**
  The line patterns of the Splash results extractor (`swimstats/parse_v2.py`), each
  written as the deterministic scan that Python's backtracking `re` engine performs
  on one line: the multi-swimmer split, the event heading, the place/date heading,
  the trailing points and placeholders, the time at the end and the rank prefix.
 */
module LinePatterns {
  import opened Wrappers
  import opened Text

  // ---------------------------------------------------------------------------
  // Scanning backwards
  // ---------------------------------------------------------------------------

  /** Length of the run of digits that ends just before index `j`. */
  function DigitRunBack(s: string, j: nat): (n: nat)
    requires j <= |s|
    ensures n <= j
    ensures forall k :: j - n <= k < j ==> IsDigit(s[k])
    ensures n == j || !IsDigit(s[j - n - 1])
  {
    if j > 0 && IsDigit(s[j - 1]) then 1 + DigitRunBack(s, j - 1) else 0
  }

  /** Start of the run of whitespace that ends just before index `j`. */
  function SpaceRunStart(s: string, j: nat): (w: nat)
    requires j <= |s|
    ensures w <= j
    ensures forall k :: w <= k < j ==> IsSpace(s[k])
    ensures w == 0 || !IsSpace(s[w - 1])
  {
    if j > 0 && IsSpace(s[j - 1]) then SpaceRunStart(s, j - 1) else j
  }

  /** Index just past the last non-whitespace character (where a trailing `\s*$` starts). */
  function TextEnd(s: string): (e: nat)
    ensures e <= |s| && AllSpace(s[e..])
    ensures e == 0 || !IsSpace(s[e - 1])
  {
    var r := RStrip(s);
    assert forall k :: 0 <= k < |s[|r|..]| ==> s[|r|..][k] == s[|r| + k];
    |r|
  }

  // ---------------------------------------------------------------------------
  // NAME_START and the multi-swimmer split
  // ---------------------------------------------------------------------------

  /** `[A-ZÁÉÍÓÚÜÑ]` */
  predicate IsNameUpper(c: char) {
    IsAsciiUpper(c) || c == '\U{C1}' || c == '\U{C9}' || c == '\U{CD}' || c == '\U{D3}'
    || c == '\U{DA}' || c == '\U{DC}' || c == '\U{D1}'
  }

  /** `[A-Za-zÁÉÍÓÚÜÑ]` */
  predicate IsNameLetter(c: char) { IsNameUpper(c) || IsAsciiLower(c) }

  /** Length of the run of `[A-ZÁÉÍÓÚÜÑ ]` characters that starts at `i`. */
  function NameRun(s: string, i: nat): (n: nat)
    requires i <= |s|
    ensures i + n <= |s|
    ensures i + n == |s| || !(IsNameUpper(s[i + n]) || s[i + n] == ' ')
    decreases |s| - i
  {
    if i < |s| && (IsNameUpper(s[i]) || s[i] == ' ') then 1 + NameRun(s, i + 1) else 0
  }

  /**
    End of the match of `[A-ZÁÉÍÓÚÜÑ][A-ZÁÉÍÓÚÜÑ ]+,\s*[A-Za-zÁÉÍÓÚÜÑ]` that starts at
    `i`: the run before the comma and the spaces after it are both taken whole.
   */
  function NameStartAt(s: string, i: nat): (r: Option<nat>)
    requires i <= |s|
    ensures r.Some? ==> i < |s| && IsNameUpper(s[i]) && i < r.value <= |s|
  {
    if i < |s| && IsNameUpper(s[i]) then
      var j := i + 1 + NameRun(s, i + 1);
      if j > i + 1 && j < |s| && s[j] == ',' then
        var k := SkipSpaces(s, j + 1);
        if k < |s| && IsNameLetter(s[k]) then Some(k + 1) else None
      else None
    else None
  }

  /** `NAME_START.finditer`: starts of the non-overlapping matches at or after `from`, left to right. */
  function NameStarts(s: string, from: nat): (r: seq<nat>)
    requires from <= |s|
    ensures forall k :: 0 <= k < |r| ==> from <= r[k] < |s| && NameStartAt(s, r[k]).Some?
    ensures forall k, l :: 0 <= k < l < |r| ==> r[k] < r[l]
    decreases |s| - from
  {
    if from == |s| then []
    else
      match NameStartAt(s, from)
      case Some(e) => [from] + NameStarts(s, e)
      case None => NameStarts(s, from + 1)
  }

  /** The stripped slices between consecutive cut points. */
  function Pieces(s: string, cuts: seq<nat>): (r: seq<string>)
    requires |cuts| >= 1 && forall k :: 0 <= k < |cuts| ==> cuts[k] <= |s|
    requires forall k, l :: 0 <= k <= l < |cuts| ==> cuts[k] <= cuts[l]
    ensures |r| == |cuts| - 1
  {
    if |cuts| == 1 then []
    else
      var tail := cuts[1..];
      assert forall k :: 0 <= k < |tail| ==> tail[k] == cuts[k + 1];
      [Strip(s[cuts[0]..cuts[1]])] + Pieces(s, tail)
  }

  /** Piece `k` is the stripped slice from cut `k` to cut `k + 1`. */
  lemma {:induction false} PiecesAt(s: string, cuts: seq<nat>)
    requires |cuts| >= 1 && forall k :: 0 <= k < |cuts| ==> cuts[k] <= |s|
    requires forall k, l :: 0 <= k <= l < |cuts| ==> cuts[k] <= cuts[l]
    ensures forall k :: 0 <= k < |cuts| - 1 ==> Pieces(s, cuts)[k] == Strip(s[cuts[k]..cuts[k + 1]])
    decreases |cuts|
  {
    if |cuts| > 1 {
      var tail := cuts[1..];
      assert forall k :: 0 <= k < |tail| ==> tail[k] == cuts[k + 1];
      PiecesAt(s, tail);
      var r := Pieces(s, cuts);
      var rest := Pieces(s, tail);
      assert r == [Strip(s[cuts[0]..cuts[1]])] + rest;
      forall k | 0 < k < |r| ensures r[k] == Strip(s[cuts[k]..cuts[k + 1]]) {
        assert r[k] == rest[k - 1] && tail[k - 1] == cuts[k] && tail[k] == cuts[k + 1];
      }
    }
  }

  /** The cut points of a line: every `NAME_START` match start, then the end of the line. */
  function Cuts(ln: string): (cuts: seq<nat>)
    ensures |cuts| == |NameStarts(ln, 0)| + 1 && cuts[|cuts| - 1] == |ln|
    ensures forall k :: 0 <= k < |cuts| - 1 ==> cuts[k] == NameStarts(ln, 0)[k] && NameStartAt(ln, cuts[k]).Some?
    ensures forall k :: 0 <= k < |cuts| ==> cuts[k] <= |ln|
    ensures forall k, l :: 0 <= k < l < |cuts| ==> cuts[k] < cuts[l]
  {
    NameStarts(ln, 0) + [|ln|]
  }

  /**
    `split_multi_swimmer_lines`: a line with at most one "SURNAME, Name" start is kept
    whole; otherwise it is cut at every start, each piece running to the next start
    (the last to the end of the line), and text before the first start is dropped.
   */
  function SplitMultiSwimmer(ln: string): (r: seq<string>)
    ensures |NameStarts(ln, 0)| <= 1 ==> r == [ln]
    ensures |NameStarts(ln, 0)| >= 2 ==> |r| == |NameStarts(ln, 0)|
    ensures |NameStarts(ln, 0)| >= 2 ==> forall k :: 0 <= k < |r| ==> r[k] == Strip(ln[Cuts(ln)[k]..Cuts(ln)[k + 1]])
  {
    if |NameStarts(ln, 0)| <= 1 then [ln] else PiecesAt(ln, Cuts(ln)); Pieces(ln, Cuts(ln))
  }

  /** Stripping a text that starts with a non-space keeps that first character in front. */
  lemma StripKeepsFirst(x: string)
    requires x != [] && !IsSpace(x[0])
    ensures Strip(x) != [] && Strip(x)[0] == x[0]
  {
    assert LStrip(x) == x;
  }

  lemma NameUpperIsNotSpace(c: char)
    requires IsNameUpper(c)
    ensures !IsSpace(c)
  {
  }

  /** Every piece of a multi-swimmer line starts with the capital letter of a surname. */
  lemma PiecesStartWithName(ln: string)
    requires |NameStarts(ln, 0)| >= 2
    ensures forall k :: 0 <= k < |SplitMultiSwimmer(ln)| ==>
      SplitMultiSwimmer(ln)[k] != [] && IsNameUpper(SplitMultiSwimmer(ln)[k][0])
  {
    var r := SplitMultiSwimmer(ln);
    var cuts := Cuts(ln);
    forall k | 0 <= k < |r| ensures r[k] != [] && IsNameUpper(r[k][0]) {
      var x := ln[cuts[k]..cuts[k + 1]];
      assert r[k] == Strip(x);
      assert NameStartAt(ln, cuts[k]).Some?;
      assert x[0] == ln[cuts[k]];
      NameUpperIsNotSpace(x[0]);
      StripKeepsFirst(x);
    }
  }

  // ---------------------------------------------------------------------------
  // EVENT_LINE
  // ---------------------------------------------------------------------------

  /** The groups of an event heading: the event number, the sex and the rest of the title. */
  datatype EventHead = EventHead(num: string, sex: string, rest: string)

  /** `s.replace(c, "")` */
  function RemoveChar(s: string, c: char): (r: string)
    ensures c !in r
  {
    if s == [] then [] else (if s[0] == c then [] else [s[0]]) + RemoveChar(s[1..], c)
  }

  /** The text `s[lo..hi]` is a case variant of `w` (`w` upper-case, with a final dot). */
  lemma {:induction false} SexText(s: string, lo: nat, w: string, u: string)
    requires MatchesIgnoringCaseAt(s, lo, w + ".") && (w == "FEM" || w == "MASC") && u == s[lo..lo + |w| + 1]
    ensures Upper(RemoveChar(u, '.')) == w
  {
    var m := |w|;
    var x := u[..m];
    assert (w + ".")[m] == '.';
    assert SameLetterIgnoringCase(s[lo + m], (w + ".")[m]);
    assert u[m] == s[lo + m];
    assert u == x + ['.'];
    assert forall k :: 0 <= k < m ==> IsAsciiUpper(w[k]) && SameLetterIgnoringCase(x[k], w[k]) by {
      forall k | 0 <= k < m ensures IsAsciiUpper(w[k]) && SameLetterIgnoringCase(x[k], w[k]) {
        assert x[k] == u[k] == s[lo + k] && (w + ".")[k] == w[k];
        assert SameLetterIgnoringCase(s[lo + k], (w + ".")[k]);
      }
    }
    RemoveCharOfLetters(x, w);
    RemoveCharAppendDot(x);
    UpperOfCaseVariant(x, w);
  }

  lemma {:induction false} RemoveCharAppendDot(x: string)
    ensures RemoveChar(x + ['.'], '.') == RemoveChar(x, '.')
  {
    if x != [] {
      assert (x + ['.'])[1..] == x[1..] + ['.'];
      RemoveCharAppendDot(x[1..]);
    } else {
      assert RemoveChar(['.'], '.') == [] + RemoveChar([], '.');
    }
  }

  lemma {:induction false} RemoveCharOfLetters(x: string, w: string)
    requires |x| == |w| && forall k :: 0 <= k < |w| ==> IsAsciiUpper(w[k]) && SameLetterIgnoringCase(x[k], w[k])
    ensures RemoveChar(x, '.') == x
  {
    if x != [] {
      RemoveCharOfLetters(x[1..], w[1..]);
    }
  }

  lemma {:induction false} UpperOfCaseVariant(x: string, w: string)
    requires |x| == |w| && forall k :: 0 <= k < |w| ==> IsAsciiUpper(w[k]) && SameLetterIgnoringCase(x[k], w[k])
    ensures Upper(x) == w
  {
    if x != [] {
      UpperOfCaseVariant(x[1..], w[1..]);
      assert w == [w[0]] + w[1..];
    }
  }

  /** `(?P<sex>FEM\.|MASC\.)` at `c`, ignoring case: the upper-case word without its dot. */
  function SexAt(s: string, c: nat): (w: string)
    ensures w == "" || w == "FEM" || w == "MASC"
    ensures w != "" ==> MatchesIgnoringCaseAt(s, c, w + ".")
  {
    if MatchesIgnoringCaseAt(s, c, "FEM.") then (assert "FEM" + "." == "FEM."; "FEM")
    else if MatchesIgnoringCaseAt(s, c, "MASC.") then (assert "MASC" + "." == "MASC."; "MASC")
    else ""
  }

  /**
    `\s*,?\s*(?P<rest>.+?)\s*$` from index `e`. The lazy group ends where only whitespace
    is left. When nothing but whitespace follows the optional comma, backtracking hands
    the group one character: the last space, or the comma when no space follows it.
   */
  function EventRest(s: string, e: nat): (r: Option<string>)
    requires e <= |s|
    ensures r.Some? ==> |r.value| >= 1
    ensures r.None? <==> e == |s|
  {
    var a2 := SkipSpaces(s, e);
    var comma := a2 < |s| && s[a2] == ',';
    var b := if comma then SkipSpaces(s, a2 + 1) else a2;
    if b < |s| then
      var end := if TextEnd(s) > b then TextEnd(s) else b + 1;
      Some(s[b..end])
    else if comma then
      Some(if a2 + 1 < |s| then s[|s| - 1..] else ",")
    else if e < |s| then
      Some(s[|s| - 1..])
    else None
  }

  /**
    Where the groups of an `EVENT_LINE` match lie: the number is the `numLen` digits at
    `numStart`, and the sex word `sex` (upper-case, without its dot) is matched at `sexStart`.
   */
  datatype EventSpans = EventSpans(numStart: nat, numLen: nat, sexStart: nat, sex: string)

  /**
    The head of `EVENT_LINE`, up to the sex group: "PRUEBA", at least one whitespace
    character, the whole run of digits there, at least one whitespace character, and
    "FEM." or "MASC." (all ignoring case).
   */
  function EventLineSpans(s: string): (r: Option<EventSpans>)
    ensures r.Some? ==> MatchesIgnoringCaseAt(s, 0, "PRUEBA")
    ensures r.Some? ==>
      var p := r.value;
      var numEnd := p.numStart + p.numLen;
      p.numStart == SkipSpaces(s, 6) && 6 < p.numStart && 0 < p.numLen
      && DigitsIn(s, p.numStart, numEnd) && (numEnd == |s| || !IsDigit(s[numEnd]))
      && p.sexStart == SkipSpaces(s, numEnd) && numEnd < p.sexStart
      && (p.sex == "FEM" || p.sex == "MASC") && MatchesIgnoringCaseAt(s, p.sexStart, p.sex + ".")
  {
    if !MatchesIgnoringCaseAt(s, 0, "PRUEBA") then None
    else
      var a := SkipSpaces(s, 6);
      var n := DigitRun(s, a);
      var c := SkipSpaces(s, a + n);
      if a == 6 || n == 0 || c == a + n then None
      else
        var w := SexAt(s, c);
        if w == "" then None else Some(EventSpans(a, n, c, w))
  }

  /**
    `EVENT_LINE.match(s)`: the head above, then the rest of the heading. The sex is
    returned as the extractor stores it, without its dot and upper-cased, which is the
    word the head matched (`EventLineSexGroup`).
   */
  function EventLine(s: string): (r: Option<EventHead>)
    ensures r.Some? ==> EventLineSpans(s).Some?
    ensures r.Some? ==>
      var p := EventLineSpans(s).value;
      r.value.num == s[p.numStart..p.numStart + p.numLen] && r.value.sex == p.sex
    ensures r.Some? ==> r.value.num != [] && AllDigits(r.value.num)
    ensures r.Some? ==> |r.value.rest| >= 1
  {
    match EventLineSpans(s)
    case None => None
    case Some(p) =>
      var e := p.sexStart + |p.sex| + 1;
      match EventRest(s, e)
      case None => None
      case Some(rest) =>
        DigitsSlice(s, p.numStart, p.numStart + p.numLen);
        Some(EventHead(s[p.numStart..p.numStart + p.numLen], p.sex, rest))
  }

  /** The sex of a heading is the matched group with its dot removed, upper-cased. */
  lemma EventLineSexGroup(s: string)
    requires EventLine(s).Some?
    ensures var p := EventLineSpans(s).value;
      EventLine(s).value.sex == Upper(RemoveChar(s[p.sexStart..p.sexStart + |p.sex| + 1], '.'))
  {
    var p := EventLineSpans(s).value;
    var u := s[p.sexStart..p.sexStart + |p.sex| + 1];
    assert EventLine(s).value.sex == p.sex;
    SexText(s, p.sexStart, p.sex, u);
    assert Upper(RemoveChar(u, '.')) == p.sex;
  }

  /** A heading in mixed case with a comma. */
  const SampleHeading := "Prueba 12 fem., 100 m Libre"

  /** Its head: the number at 7 for two digits, "FEM" at 10. */
  lemma SampleHeadingSpans()
    ensures EventLineSpans(SampleHeading) == Some(EventSpans(7, 2, 10, "FEM"))
  {
    var s := SampleHeading;
    assert MatchesIgnoringCaseAt(s, 0, "PRUEBA") by {
      forall k | 0 <= k < 6 ensures SameLetterIgnoringCase(s[k], "PRUEBA"[k]) {
      }
    }
    assert SkipSpaces(s, 6) == 7 by {
      assert IsSpace(s[6]) && !IsSpace(s[7]);
    }
    assert DigitRun(s, 7) == 2 by {
      assert IsDigit(s[7]) && IsDigit(s[8]) && !IsDigit(s[9]);
    }
    assert SkipSpaces(s, 9) == 10 by {
      assert IsSpace(s[9]) && !IsSpace(s[10]);
    }
    assert MatchesIgnoringCaseAt(s, 10, "FEM.") by {
      forall k | 0 <= k < 4 ensures SameLetterIgnoringCase(s[10 + k], "FEM."[k]) {
      }
    }
  }

  /** Its number. */
  lemma SampleHeadingNum()
    ensures SampleHeading[7..9] == "12"
  {
  }

  /** Its rest: the comma and the space after "fem." are skipped. */
  lemma SampleHeadingRest()
    ensures EventRest(SampleHeading, 14) == Some("100 m Libre")
  {
    var s := SampleHeading;
    assert SkipSpaces(s, 14) == 14 && s[14] == ',';
    assert SkipSpaces(s, 15) == 16 by {
      assert IsSpace(s[15]) && !IsSpace(s[16]);
    }
    assert TextEnd(s) == |s| by {
      assert !IsSpace(s[|s| - 1]);
    }
    assert s[16..|s|] == "100 m Libre";
  }

  /** The whole match: number "12", sex "FEM", and the event text. */
  lemma EventLineExample()
    ensures EventLine(SampleHeading) == Some(EventHead("12", "FEM", "100 m Libre"))
  {
    SampleHeadingSpans();
    SampleHeadingNum();
    SampleHeadingRest();
  }

  // ---------------------------------------------------------------------------
  // PLACE_DATE_LINE
  // ---------------------------------------------------------------------------

  /** Index of the last occurrence of `c` in `s`. */
  function LastIndexOf(s: string, c: char): (r: Option<nat>)
    ensures r.Some? ==> r.value < |s| && s[r.value] == c && c !in s[r.value + 1..]
    ensures r.None? ==> c !in s
  {
    if s == [] then None
    else if s[|s| - 1] == c then Some(|s| - 1)
    else
      var r := LastIndexOf(s[..|s| - 1], c);
      assert r.Some? ==> s[r.value + 1..] == s[..|s| - 1][r.value + 1..] + [s[|s| - 1]];
      assert r.None? ==> s == s[..|s| - 1] + [s[|s| - 1]];
      r
  }

  /** `\d{1,2}/\d{1,2}/\d{4}` starting at `k`, followed only by whitespace: the index past the year. */
  function DateAt(s: string, k: nat): (r: Option<nat>)
    requires k <= |s|
    ensures r.Some? ==> k < r.value <= |s| && AllSpace(s[r.value..])
  {
    var d1 := DigitRun(s, k);
    if 1 <= d1 <= 2 && k + d1 < |s| && s[k + d1] == '/' then
      var m := k + d1 + 1;
      var d2 := DigitRun(s, m);
      if 1 <= d2 <= 2 && m + d2 < |s| && s[m + d2] == '/' then
        var y := m + d2 + 1;
        var end := y + 4;
        if DigitRun(s, y) == 4 && SkipSpaces(s, end) == |s| then
          assert forall i :: 0 <= i < |s[end..]| ==> s[end..][i] == s[end + i];
          Some(end)
        else None
      else None
    else None
  }

  /**
    `PLACE_DATE_LINE.match(s)`: a non-empty place, a comma, and a date that runs to the
    end of the line. Only the last comma can be followed by such a date, so the greedy
    place is everything before the last comma. Both groups are returned stripped.
   */
  function PlaceDateLine(s: string): (r: Option<(string, string)>)
    ensures r.Some? ==> ',' in s
    ensures r.Some? ==> IsStripped(r.value.0) && r.value.1 != []
  {
    match LastIndexOf(s, ',')
    case None => None
    case Some(c) =>
      if c == 0 then None
      else
        var k := SkipSpaces(s, c + 1);
        match DateAt(s, k)
        case None => None
        case Some(end) => Some((Strip(s[..c]), s[k..end]))
  }

  // ---------------------------------------------------------------------------
  // Trailing points, deltas and placeholders
  // ---------------------------------------------------------------------------

  /** `re.sub(r"\s+\+\d{1,3},\d{2}\s*$", "", s)`: drops a trailing delta such as " +0,72". */
  function DropDelta(s: string): (r: string)
    ensures IsPrefix(r, s)
  {
    var e := TextEnd(s);
    if e >= 3 && DigitRunBack(s, e) == 2 && s[e - 3] == ',' then
      var d := DigitRunBack(s, e - 3);
      var p := e - 3 - d;
      if 1 <= d <= 3 && p >= 2 && s[p - 1] == '+' && IsSpace(s[p - 2]) then s[..SpaceRunStart(s, p - 1)] else s
    else s
  }

  /** `re.sub(r"\s+\d{1,5}\s*$", "", s)`: drops trailing integer points. */
  function DropPoints(s: string): (r: string)
    ensures IsPrefix(r, s)
  {
    var e := TextEnd(s);
    var d := DigitRunBack(s, e);
    var p := e - d;
    if 1 <= d <= 5 && p >= 1 && IsSpace(s[p - 1]) then s[..SpaceRunStart(s, p)] else s
  }

  /** `re.sub(r"\s+\d{1,4},\d{2}\s*$", "", s)`: drops trailing decimal points such as " 8,00". */
  function DropDecimalPoints(s: string): (r: string)
    ensures IsPrefix(r, s)
  {
    var e := TextEnd(s);
    if e >= 3 && DigitRunBack(s, e) == 2 && s[e - 3] == ',' then
      var d := DigitRunBack(s, e - 3);
      var p := e - 3 - d;
      if 1 <= d <= 4 && p >= 1 && IsSpace(s[p - 1]) then s[..SpaceRunStart(s, p)] else s
    else s
  }

  /** `-`, en dash or em dash. */
  predicate IsDash(c: char) { c == '-' || c == '\U{2013}' || c == '\U{2014}' }

  /** `re.sub(r"\s*[-–—]\s*$", "", s)`: drops a trailing placeholder dash. */
  function DropDash(s: string): (r: string)
    ensures IsPrefix(r, s)
  {
    var e := TextEnd(s);
    if e >= 1 && IsDash(s[e - 1]) then s[..SpaceRunStart(s, e - 1)] else s
  }

  /** `r` is a prefix of `s`. */
  predicate IsPrefix(r: string, s: string) {
    |r| <= |s| && r == s[..|r|]
  }

  lemma PrefixTrans(a: string, b: string, c: string)
    requires IsPrefix(a, b) && IsPrefix(b, c)
    ensures IsPrefix(a, c)
  {
    assert c[..|b|][..|a|] == c[..|a|];
  }

  /** The four clean-ups, in the order the extractor applies them. */
  function DropTrailingNoise(s: string): (r: string)
    ensures IsPrefix(r, s)
  {
    var a := DropDelta(s);
    var b := DropPoints(a);
    PrefixTrans(b, a, s);
    var c := DropDecimalPoints(b);
    PrefixTrans(c, b, s);
    var d := DropDash(c);
    PrefixTrans(d, c, s);
    d
  }

  // ---------------------------------------------------------------------------
  // TIME_AT_END and POS_PREFIX
  // ---------------------------------------------------------------------------

  /** Spaces then one or two digits up to the end of `u`, from index `k`: `\s*\d{1,2}` fully matched. */
  predicate FracTail(u: string, k: nat)
    requires k <= |u|
  {
    var j := SkipSpaces(u, k);
    1 <= |u| - j <= 2 && DigitsIn(u, j, |u|)
  }

  /** `u` fully matches `\d+:\d{2}(?:[.,]\s*\d{1,2})?`. */
  predicate IsColonTime(u: string) {
    var n := DigitRun(u, 0);
    n >= 1 && n + 3 <= |u| && u[n] == ':' && DigitsIn(u, n + 1, n + 3)
    && (n + 3 == |u| || ((u[n + 3] == '.' || u[n + 3] == ',') && FracTail(u, n + 4)))
  }

  /** `u` fully matches `\d{1,3}[.,]\s*\d{1,2}`. */
  predicate IsSecondsTime(u: string) {
    var n := DigitRun(u, 0);
    1 <= n <= 3 && n < |u| && (u[n] == '.' || u[n] == ',') && FracTail(u, n + 1)
  }

  predicate IsTimeToken(u: string) { IsColonTime(u) || IsSecondsTime(u) }

  /** The leftmost `i >= from` whose text up to the end of the line is a time token. */
  function TimeStartFrom(s: string, from: nat): (r: Option<nat>)
    requires from <= TextEnd(s)
    ensures r.Some? ==> from <= r.value <= TextEnd(s) && IsTimeToken(s[r.value..TextEnd(s)])
    ensures forall i :: from <= i <= TextEnd(s) && (r.None? || i < r.value) ==> !IsTimeToken(s[i..TextEnd(s)])
    decreases TextEnd(s) - from
  {
    if IsTimeToken(s[from..TextEnd(s)]) then Some(from)
    else if from == TextEnd(s) then None
    else TimeStartFrom(s, from + 1)
  }

  /**
    `TIME_AT_END.search(s)`: the group ends where the trailing whitespace starts, so the
    match is the leftmost start whose text up to there is a whole time token.
   */
  function TimeAtEnd(s: string): (r: Option<nat>)
    ensures r.Some? ==> r.value <= TextEnd(s) && IsTimeToken(s[r.value..TextEnd(s)])
    ensures forall i :: 0 <= i <= TextEnd(s) && (r.None? || i < r.value) ==> !IsTimeToken(s[i..TextEnd(s)])
  {
    TimeStartFrom(s, 0)
  }

  /** `re.sub(r"\s+", "", u).replace(",", ".")`: the time text handed to the time parser. */
  function TimeText(u: string): (r: string)
    ensures forall k :: 0 <= k < |r| ==> !IsSpace(r[k]) && r[k] != ','
  {
    if u == [] then []
    else (if IsSpace(u[0]) then [] else if u[0] == ',' then "." else [u[0]]) + TimeText(u[1..])
  }

  /** `POS_PREFIX.match(s)`: one to three digits, a dot and at least one space at the start. */
  predicate HasRankPrefix(s: string) {
    var d := DigitRun(s, 0);
    1 <= d <= 3 && d + 1 < |s| && s[d] == '.' && IsSpace(s[d + 1])
  }

  /** `POS_PREFIX.sub("", s)`: the text after the rank prefix, if there is one. */
  function DropRankPrefix(s: string): (r: string)
    ensures r == s || (|r| < |s| && r == s[|s| - |r|..])
  {
    if HasRankPrefix(s) then s[SkipSpaces(s, DigitRun(s, 0) + 1)..] else s
  }

  /** A line that a rank prefix opens starts with a digit. */
  lemma RankPrefixStartsWithDigit(s: string)
    requires HasRankPrefix(s)
    ensures IsDigit(s[0])
  {
  }
}
