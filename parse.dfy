/**
  The Splash results extractor (`swimstats/parse_v2.py`): the name and birth-year
  split of a result line, and the line-by-line state machine that turns the page
  texts of a results document into result rows.
 */
module Parse {
  import opened Wrappers
  import opened Text
  import opened Stats
  import opened Normalize
  import opened Events
  import opened LinePatterns

  // ---------------------------------------------------------------------------
  // Glue fixes between a name and a number
  // ---------------------------------------------------------------------------

  /** `[A-Za-zÁÉÍÓÚÜÑáéíóúüñ]` */
  predicate IsGlueLetter(c: char) {
    IsAsciiLetter(c) || c == '\U{C1}' || c == '\U{C9}' || c == '\U{CD}' || c == '\U{D3}' || c == '\U{DA}'
    || c == '\U{DC}' || c == '\U{D1}' || c == '\U{E1}' || c == '\U{E9}' || c == '\U{ED}' || c == '\U{F3}'
    || c == '\U{FA}' || c == '\U{FC}' || c == '\U{F1}'
  }

  /** A letter followed by a digit (`letterFirst`), or a digit followed by a letter. */
  predicate GluePair(a: char, b: char, letterFirst: bool) {
    if letterFirst then IsGlueLetter(a) && IsDigit(b) else IsDigit(a) && IsGlueLetter(b)
  }

  /**
    `re.sub(r"(?<=[letters])(?=\d)", " ", s)` (`letterFirst`) or
    `re.sub(r"(?<=\d)(?=[letters])", " ", s)`: a space at every position between a glued
    pair; the text itself is otherwise kept.
   */
  function InsertSpaces(s: string, letterFirst: bool): (r: string)
    ensures forall i :: 0 <= i < |r| - 1 ==> !GluePair(r[i], r[i + 1], letterFirst)
    ensures |r| >= |s| && (s != [] ==> r != [] && r[0] == s[0])
    decreases |s|
  {
    if |s| < 2 then s
    else
      var tail := InsertSpaces(s[1..], letterFirst);
      var mid := if GluePair(s[0], s[1], letterFirst) then " " else "";
      var r := [s[0]] + mid + tail;
      forall i | 0 <= i < |r| - 1 ensures !GluePair(r[i], r[i + 1], letterFirst) {
        if i >= 1 + |mid| {
          assert r[i] == tail[i - 1 - |mid|] && r[i + 1] == tail[i - |mid|];
        }
      }
      r
  }

  /**
    The prefix of a result line as `_extract_name_yob2` cleans it: rank prefix removed,
    stripped, whitespace collapsed, a space put between a letter and a digit glued
    together (in both orders), then collapsed and stripped again.
   */
  function GlueFixed(prefix: string): (r: string)
    ensures IsStripped(r)
  {
    var s1 := CollapseWs(Strip(DropRankPrefix(prefix)));
    var s2 := InsertSpaces(s1, true);
    var s3 := InsertSpaces(s2, false);
    Strip(CollapseWs(s3))
  }

  /** The cleaned text is stripped and its whitespace collapsed. */
  lemma GlueFixedClean(prefix: string)
    ensures IsStripped(GlueFixed(prefix)) && IsCollapsed(GlueFixed(prefix))
  {
    var s1 := CollapseWs(Strip(DropRankPrefix(prefix)));
    var s2 := InsertSpaces(s1, true);
    var s3 := InsertSpaces(s2, false);
    StripKeepsCollapsed(CollapseWs(s3));
  }

  // ---------------------------------------------------------------------------
  // Standalone one- or two-digit numbers
  // ---------------------------------------------------------------------------

  /**
    `\b(\d{1,2})\b` matches at `i`. The digit group must be the whole run of digits
    there: a longer run leaves a digit after the group, which is no word boundary.
   */
  predicate YearAt(s: string, i: nat) {
    i < |s| && IsBoundary(s, i) && IsDigit(s[i])
    && DigitRun(s, i) <= 2 && IsBoundary(s, i + DigitRun(s, i))
  }

  /** `int(m.group(1))` for a match at `i`. */
  function YearValue(s: string, i: nat): (v: nat)
    requires YearAt(s, i)
    ensures v <= 99
  {
    var n := DigitRun(s, i);
    assert DigitsIn(s, i, i + n);
    DigitsSlice(s, i, i + n);
    var d := s[i..i + n];
    assert |d| == 1 ==> DigitsValue(d) == 10 * DigitsValue(d[..0]) + DigitValue(d[0]);
    assert |d| == 2 ==> DigitsValue(d) == 10 * DigitsValue(d[..1]) + DigitValue(d[1]);
    assert |d| == 2 ==> DigitsValue(d[..1]) == 10 * DigitsValue(d[..0]) + DigitValue(d[0]);
    DigitsValueAt(s, i, i + n)
  }

  /** Inside a run of digits there is no word boundary, so no match starts there. */
  lemma NoYearInsideRun(s: string, i: nat, k: nat)
    requires i <= |s| && i < k < i + DigitRun(s, i)
    ensures !YearAt(s, k)
  {
    assert IsDigit(s[k - 1]) && IsDigit(s[k]);
  }

  lemma NoYearInsideMatch(s: string, i: nat)
    requires i <= |s|
    ensures forall k :: i < k < i + DigitRun(s, i) ==> !YearAt(s, k)
  {
    forall k | i < k < i + DigitRun(s, i) ensures !YearAt(s, k) {
      NoYearInsideRun(s, i, k);
    }
  }

  /**
    `[(m.start(), int(m.group(1))) for m in re.finditer(r"\b(\d{1,2})\b", s)]` from
    index `from`: every match, left to right, each search resuming where the last
    match ended.
   */
  function Numbers(s: string, from: nat): (r: seq<(nat, nat)>)
    requires from <= |s|
    ensures forall k :: 0 <= k < |r| ==> from <= r[k].0 < |s| && r[k].1 <= 99
    decreases |s| - from
  {
    if from == |s| then []
    else if YearAt(s, from) then
      var rest := Numbers(s, from + DigitRun(s, from));
      var r := [(from, YearValue(s, from))] + rest;
      assert forall k :: 0 < k < |r| ==> r[k] == rest[k - 1];
      r
    else Numbers(s, from + 1)
  }

  /** Each pair is a match of the pattern at its position, with the number written there. */
  ghost predicate AllMatches(s: string, nums: seq<(nat, nat)>) {
    forall k :: 0 <= k < |nums| ==> YearAt(s, nums[k].0) && nums[k].1 == YearValue(s, nums[k].0)
  }

  /** Every number found is a match of the pattern, and its value is the number written there. */
  lemma {:induction false} NumbersAreMatches(s: string, from: nat)
    requires from <= |s|
    ensures AllMatches(s, Numbers(s, from))
    decreases |s| - from
  {
    if from == |s| {
    } else if YearAt(s, from) {
      var next := from + DigitRun(s, from);
      NumbersAtMatch(s, from);
      NumbersAreMatches(s, next);
      ConsMatches(s, from, Numbers(s, next));
    } else {
      NumbersSkip(s, from);
      NumbersAreMatches(s, from + 1);
    }
  }

  lemma ConsMatches(s: string, from: nat, rest: seq<(nat, nat)>)
    requires YearAt(s, from) && AllMatches(s, rest)
    ensures AllMatches(s, [(from, YearValue(s, from))] + rest)
  {
    var r := [(from, YearValue(s, from))] + rest;
    forall k | 0 < k < |r| ensures r[k] == rest[k - 1] { }
  }

  /** No match is missed: a number at `i` is found, at or before the last match. */
  lemma {:induction false} NumbersComplete(s: string, from: nat, i: nat)
    requires from <= i < |s| && YearAt(s, i)
    ensures Numbers(s, from) != [] && Numbers(s, from)[|Numbers(s, from)| - 1].0 >= i
    decreases |s| - from, 1
  {
    if YearAt(s, from) && i == from {
      NumbersAtMatch(s, from);
      NumbersLastFrom(s, from);
    } else if YearAt(s, from) {
      NumbersCompleteAtMatch(s, from, i);
    } else {
      NumbersSkip(s, from);
      NumbersComplete(s, from + 1, i);
    }
  }

  /** Without a match at `from`, the search moves on by one character. */
  lemma NumbersSkip(s: string, from: nat)
    requires from < |s| && !YearAt(s, from)
    ensures Numbers(s, from) == Numbers(s, from + 1)
  {
  }

  lemma {:induction false} NumbersCompleteAtMatch(s: string, from: nat, i: nat)
    requires from < i < |s| && YearAt(s, i) && YearAt(s, from)
    ensures Numbers(s, from) != [] && Numbers(s, from)[|Numbers(s, from)| - 1].0 >= i
    decreases |s| - from, 0
  {
    NumbersAtMatch(s, from);
    NoYearBeforeRunEnd(s, from, i);
    NumbersComplete(s, from + DigitRun(s, from), i);
    LastOfCons((from, YearValue(s, from)), Numbers(s, from + DigitRun(s, from)));
  }

  /** Every number found from `from` lies at or after `from`. */
  lemma NumbersLastFrom(s: string, from: nat)
    requires from <= |s| && Numbers(s, from) != []
    ensures Numbers(s, from)[|Numbers(s, from)| - 1].0 >= from
  {
  }

  /** A match at `from` is the first number found, and the search resumes after its digits. */
  lemma NumbersAtMatch(s: string, from: nat)
    requires from < |s| && YearAt(s, from)
    ensures Numbers(s, from) == [(from, YearValue(s, from))] + Numbers(s, from + DigitRun(s, from))
  {
  }

  lemma NoYearBeforeRunEnd(s: string, from: nat, i: nat)
    requires from < i < |s| && YearAt(s, i) && YearAt(s, from)
    ensures i >= from + DigitRun(s, from)
  {
    if i < from + DigitRun(s, from) {
      NoYearInsideRun(s, from, i);
    }
  }

  lemma LastOfCons<T>(x: T, rest: seq<T>)
    requires rest != []
    ensures ([x] + rest)[|[x] + rest| - 1] == rest[|rest| - 1]
  {
  }

  /** After the last number found there is none, and with none found there is none at all. */
  lemma NumbersAll(s: string)
    ensures Numbers(s, 0) != [] ==> forall i :: Numbers(s, 0)[|Numbers(s, 0)| - 1].0 < i < |s| ==> !YearAt(s, i)
    ensures Numbers(s, 0) == [] ==> forall i :: 0 <= i < |s| ==> !YearAt(s, i)
  {
    forall i | 0 <= i < |s| && YearAt(s, i)
      ensures Numbers(s, 0) != [] && Numbers(s, 0)[|Numbers(s, 0)| - 1].0 >= i
    {
      NumbersComplete(s, 0, i);
    }
  }

  /** The reversed scan of `_extract_name_yob2`: the last number whose value lies in `MIN_YY..MAX_YY`. */
  function LastInRange(nums: seq<(nat, nat)>): (r: Option<(nat, nat)>)
    ensures r.Some? ==> r.value in nums && MinYY <= r.value.1 <= MaxYY
    ensures r.None? ==> forall k :: 0 <= k < |nums| ==> !(MinYY <= nums[k].1 <= MaxYY)
  {
    if nums == [] then None
    else if MinYY <= nums[|nums| - 1].1 <= MaxYY then Some(nums[|nums| - 1])
    else
      var r := LastInRange(nums[..|nums| - 1]);
      assert r.Some? ==> r.value in nums by {
        if r.Some? { var k :| 0 <= k < |nums| - 1 && nums[..|nums| - 1][k] == r.value; assert nums[k] == r.value; }
      }
      r
  }

  const MinYY: nat := 0
  const MaxYY: nat := 99

  /**
    Every number the pattern finds has at most two digits, so every one lies in
    `MIN_YY..MAX_YY` and the reversed scan always takes the rightmost one.
   */
  lemma LastInRangeIsLast(s: string)
    ensures Numbers(s, 0) != [] ==> LastInRange(Numbers(s, 0)) == Some(Numbers(s, 0)[|Numbers(s, 0)| - 1])
    ensures Numbers(s, 0) == [] ==> LastInRange(Numbers(s, 0)).None?
  {
  }

  // ---------------------------------------------------------------------------
  // The name when no birth year is found
  // ---------------------------------------------------------------------------

  /** `re.fullmatch(r"\d{1,3}", t)` */
  predicate IsShortNumber(t: string) { 1 <= |t| <= 3 && AllDigits(t) }

  /** The tokens before the first short number. */
  function TokensBeforeNumber(tokens: seq<string>): (out: seq<string>)
    ensures |out| <= |tokens| && out == tokens[..|out|]
    ensures forall k :: 0 <= k < |out| ==> !IsShortNumber(out[k])
    ensures |out| < |tokens| ==> IsShortNumber(tokens[|out|])
  {
    if tokens == [] || IsShortNumber(tokens[0]) then []
    else [tokens[0]] + TokensBeforeNumber(tokens[1..])
  }

  // ---------------------------------------------------------------------------
  // _extract_name_yob2
  // ---------------------------------------------------------------------------

  /**
    The decision `_extract_name_yob2` takes on the cleaned text `s`. With a year after
    position 1, the year is the rightmost standalone one- or two-digit number and the
    name is the text before it; otherwise there is no year and the name is made of the
    tokens before the first token of one to three digits.
   */
  function SplitNameYear(s: string): (r: (string, Option<nat>))
    ensures r.1.Some? ==> r.1.value <= 99
  {
    var pick := LastInRange(Numbers(s, 0));
    if pick.Some? && pick.value.0 > 1 then
      (NormalizeName(Strip(s[..pick.value.0])), Some(pick.value.1))
    else
      (NormalizeName(Join(" ", TokensBeforeNumber(Split(s, ' ')))), None)
  }

  /** `_extract_name_yob2(prefix)`: the swimmer's display name and the two-digit birth year. */
  function NameAndYear(prefix: string): (r: (string, Option<nat>))
    ensures r.1.Some? ==> r.1.value <= 99
  {
    SplitNameYear(GlueFixed(prefix))
  }

  /** The name is a normalized name: whitespace collapsed, no combining marks. */
  lemma NameIsClean(prefix: string)
    ensures IsCollapsed(NameAndYear(prefix).0)
    ensures forall i :: 0 <= i < |NameAndYear(prefix).0| ==> !IsCombining(NameAndYear(prefix).0[i])
  {
    var s := GlueFixed(prefix);
    var pick := LastInRange(Numbers(s, 0));
    if pick.Some? && pick.value.0 > 1 {
      NormalizeNameClean(Strip(s[..pick.value.0]));
    } else {
      NormalizeNameClean(Join(" ", TokensBeforeNumber(Split(s, ' '))));
    }
  }

  /** A birth year is found exactly when a standalone number starts after position 1. */
  lemma YearIffLateNumber(s: string)
    ensures SplitNameYear(s).1.Some? <==> exists i :: 1 < i < |s| && YearAt(s, i)
  {
    if SplitNameYear(s).1.Some? {
      YearIsRightmostNumber(s);
    } else {
      forall i | 1 < i < |s| ensures !YearAt(s, i) {
        if YearAt(s, i) {
          YearFromLateNumber(s, i);
        }
      }
    }
  }

  /** A standalone number after position 1 gives a year. */
  lemma YearFromLateNumber(s: string, i: nat)
    requires 1 < i < |s| && YearAt(s, i)
    ensures SplitNameYear(s).1.Some?
  {
    NumbersComplete(s, 0, i);
    LastInRangeIsLast(s);
  }

  /** With a year, the cut is the start of the last number found, a match after position 1. */
  lemma YearCut(s: string) returns (cut: nat)
    requires SplitNameYear(s).1.Some?
    ensures Numbers(s, 0) != [] && cut == Numbers(s, 0)[|Numbers(s, 0)| - 1].0
    ensures 1 < cut < |s|
    ensures SplitNameYear(s) == (NormalizeName(Strip(s[..cut])), Some(Numbers(s, 0)[|Numbers(s, 0)| - 1].1))
  {
    var nums := Numbers(s, 0);
    LastInRangeIsLast(s);
    cut := nums[|nums| - 1].0;
  }

  /**
    A birth year is the rightmost standalone number of the cleaned text, and the name
    is the text before it.
   */
  lemma YearIsRightmostNumber(s: string)
    requires SplitNameYear(s).1.Some?
    ensures exists cut :: 1 < cut < |s| && YearAt(s, cut)
              && (forall i :: cut < i < |s| ==> !YearAt(s, i))
              && SplitNameYear(s).1.value == YearValue(s, cut)
              && SplitNameYear(s).0 == NormalizeName(Strip(s[..cut]))
  {
    var cut := YearCut(s);
    LastNumberIsRightmost(s);
  }

  /** The last number found is a match, with no match to its right. */
  lemma LastNumberIsRightmost(s: string)
    requires Numbers(s, 0) != []
    ensures var last := Numbers(s, 0)[|Numbers(s, 0)| - 1];
      YearAt(s, last.0) && last.1 == YearValue(s, last.0)
      && forall i :: last.0 < i < |s| ==> !YearAt(s, i)
  {
    NumbersAreMatches(s, 0);
    NumbersAll(s);
  }

  /**
    Without a year, the name is built from the tokens before the first token of one to
    three digits.
   */
  lemma NameWithoutYear(s: string)
    requires SplitNameYear(s).1.None?
    ensures SplitNameYear(s).0 == NormalizeName(Join(" ", TokensBeforeNumber(Split(s, ' '))))
  {
  }

  /**
    `_extract_name_yob2` as the source runs it: the reversed scan over the numbers and
    the token loop that stops at the first short number.
   */
  method ExtractNameYob(prefix: string) returns (name: string, yy: Option<nat>)
    ensures (name, yy) == NameAndYear(prefix)
  {
    var s := GlueFixed(prefix);
    name, yy := PickNameYear(s);
  }

  /**
    The reversed scan over the numbers of the cleaned text, which stops at the first
    number in range, then the token loop, which stops at the first short number.
   */
  method PickNameYear(s: string) returns (name: string, yy: Option<nat>)
    ensures (name, yy) == SplitNameYear(s)
  {
    var nums := Numbers(s, 0);
    var cut: Option<nat>;
    yy, cut := ReversedScan(nums);
    if yy.Some? && cut.value > 1 {
      name := NormalizeName(Strip(s[..cut.value]));
    } else {
      yy := None;
      var out := NameTokens(Split(s, ' '));
      name := NormalizeName(Join(" ", out));
    }
  }

  /** The reversed loop over the numbers: the last one whose value lies in `MIN_YY..MAX_YY`. */
  method ReversedScan(nums: seq<(nat, nat)>) returns (yy: Option<nat>, cut: Option<nat>)
    ensures yy.Some? == cut.Some?
    ensures yy.None? ==> LastInRange(nums).None?
    ensures yy.Some? ==> LastInRange(nums) == Some((cut.value, yy.value))
  {
    yy := None;
    cut := None;
    var i := |nums|;
    assert nums[..i] == nums;
    while i > 0 && yy.None?
      invariant 0 <= i <= |nums|
      invariant yy.None? ==> cut.None? && LastInRange(nums) == LastInRange(nums[..i])
      invariant yy.Some? ==> cut.Some? && LastInRange(nums) == Some((cut.value, yy.value))
      decreases i
    {
      i := i - 1;
      assert nums[..i + 1][..i] == nums[..i];
      assert nums[..i + 1][i] == nums[i];
      if MinYY <= nums[i].1 <= MaxYY {
        yy := Some(nums[i].1);
        cut := Some(nums[i].0);
      }
    }
    if yy.None? {
      assert nums[..i] == [];
    }
  }

  /** The token loop: the tokens before the first short number. */
  method NameTokens(tokens: seq<string>) returns (out: seq<string>)
    ensures out == TokensBeforeNumber(tokens)
  {
    out := [];
    var k := 0;
    while k < |tokens| && !IsShortNumber(tokens[k])
      invariant 0 <= k <= |tokens| && out == tokens[..k]
      invariant forall j :: 0 <= j < k ==> !IsShortNumber(tokens[j])
      decreases |tokens| - k
    {
      out := out + [tokens[k]];
      k := k + 1;
    }
    ShortNumberStop(tokens, k);
  }

  /** The token list the loop builds is the one the specification describes. */
  lemma {:induction false} ShortNumberStop(tokens: seq<string>, n: nat)
    requires n <= |tokens|
    requires forall j :: 0 <= j < n ==> !IsShortNumber(tokens[j])
    requires n == |tokens| || IsShortNumber(tokens[n])
    ensures TokensBeforeNumber(tokens) == tokens[..n]
    decreases n
  {
    if n > 0 {
      ShortNumberStop(tokens[1..], n - 1);
      assert tokens[..n] == [tokens[0]] + tokens[1..][..n - 1];
    }
  }

  // ---------------------------------------------------------------------------
  // Rows and the state carried from line to line
  // ---------------------------------------------------------------------------

  /** One result row as the extractor's dictionary holds it, the time in centiseconds. */
  datatype Row = Row(
    category: string, meetName: Option<string>, meetPlace: Option<string>, meetDate: Option<string>,
    eventNum: Option<string>, sex: Option<string>, event: string, eventCategory: Option<string>,
    swimmer: string, age: Option<nat>, timeCentis: nat, rawLine: string)

  /** The meet header fields and the fields of the event being read. */
  datatype ParseState = ParseState(
    meetName: Option<string>, meetPlace: Option<string>, meetDate: Option<string>,
    eventNum: Option<string>, sex: Option<string>, event: Option<string>, cat: Option<string>)

  const Initial: ParseState := ParseState(None, None, None, None, None, None, None)

  /** The state and the rows emitted so far. */
  datatype Acc = Acc(st: ParseState, rows: seq<Row>)

  /** `[ln.strip() for ln in lines if ln.strip()]` */
  function StrippedNonEmpty(ls: seq<string>): (r: seq<string>)
    ensures |r| <= |ls|
    ensures forall k :: 0 <= k < |r| ==> r[k] != [] && IsStripped(r[k])
  {
    if ls == [] then []
    else (if Strip(ls[0]) == [] then [] else [Strip(ls[0])]) + StrippedNonEmpty(ls[1..])
  }

  /** The non-empty stripped lines of a page text. */
  function PageLines(text: string): (lines: seq<string>)
    ensures forall k :: 0 <= k < |lines| ==> lines[k] != [] && IsStripped(lines[k])
  {
    StrippedNonEmpty(SplitLines(text))
  }

  // ---------------------------------------------------------------------------
  // The meet header
  // ---------------------------------------------------------------------------

  /** The line names the meet: its upper-case form contains LIGA, CONTROL or CAMPEON. */
  predicate NamesMeet(ln: string) {
    var up := Upper(ln);
    Contains(up, "LIGA") || Contains(up, "CONTROL") || Contains(up, "CAMPEON")
  }

  /** The meet fields are set: the name, and the place together with the date. */
  predicate KeepsMeet(before: ParseState, after: ParseState) {
    (before.meetName.Some? ==> after.meetName == before.meetName)
    && (before.meetDate.Some? ==> after.meetDate == before.meetDate && after.meetPlace == before.meetPlace)
    && (before.meetDate.Some? == before.meetPlace.Some? ==> after.meetDate.Some? == after.meetPlace.Some?)
  }

  /** The event fields of two states agree. */
  predicate SameEvent(a: ParseState, b: ParseState) {
    a.eventNum == b.eventNum && a.sex == b.sex && a.event == b.event && a.cat == b.cat
  }

  /** One of the first ten lines of a page, looked at for the meet header. */
  function HeaderStep(st: ParseState, ln: string): (r: ParseState)
    ensures KeepsMeet(st, r) && SameEvent(st, r)
  {
    var st1 := if st.meetName.None? && NamesMeet(ln) then st.(meetName := Some(Strip(ln))) else st;
    match PlaceDateLine(ln)
    case Some(pd) => if st1.meetDate.None? then st1.(meetPlace := Some(pd.0), meetDate := Some(pd.1)) else st1
    case None => st1
  }

  /** The header loop over some lines. */
  function HeaderScan(st: ParseState, lines: seq<string>): (r: ParseState)
    ensures KeepsMeet(st, r) && SameEvent(st, r)
    decreases |lines|
  {
    if lines == [] then st else HeaderStep(HeaderScan(st, lines[..|lines| - 1]), lines[|lines| - 1])
  }

  /** The first ten lines (all of them when there are fewer). */
  function FirstTen(lines: seq<string>): (r: seq<string>)
    ensures |r| <= 10 && |r| <= |lines| && r == lines[..|r|] && (|r| < 10 ==> r == lines)
  {
    if |lines| <= 10 then lines else lines[..10]
  }

  /** Reference definition: the stripped first line that names the meet. */
  function FirstMeetName(lines: seq<string>): Option<string> {
    if lines == [] then None
    else if NamesMeet(lines[0]) then Some(Strip(lines[0]))
    else FirstMeetName(lines[1..])
  }

  /** Reference definition: the place and date of the first place/date line. */
  function FirstPlaceDate(lines: seq<string>): Option<(string, string)> {
    if lines == [] then None
    else if PlaceDateLine(lines[0]).Some? then PlaceDateLine(lines[0])
    else FirstPlaceDate(lines[1..])
  }

  lemma {:induction false} FirstMeetNameSnoc(lines: seq<string>, x: string)
    ensures FirstMeetName(lines + [x])
            == if FirstMeetName(lines).Some? then FirstMeetName(lines)
               else if NamesMeet(x) then Some(Strip(x)) else None
  {
    if lines != [] {
      assert (lines + [x])[1..] == lines[1..] + [x];
      FirstMeetNameSnoc(lines[1..], x);
    }
  }

  lemma {:induction false} FirstPlaceDateSnoc(lines: seq<string>, x: string)
    ensures FirstPlaceDate(lines + [x])
            == if FirstPlaceDate(lines).Some? then FirstPlaceDate(lines) else PlaceDateLine(x)
  {
    if lines != [] {
      assert (lines + [x])[1..] == lines[1..] + [x];
      FirstPlaceDateSnoc(lines[1..], x);
    }
  }

  /**
    A header field that is not set yet is taken from the first line that provides it:
    the meet name from the first line naming the meet, the place and the date together
    from the first place/date line.
   */
  lemma {:induction false} HeaderScanTakesFirst(st: ParseState, lines: seq<string>)
    ensures st.meetName.None? ==> HeaderScan(st, lines).meetName == FirstMeetName(lines)
    ensures st.meetDate.None? && FirstPlaceDate(lines).Some? ==>
              HeaderScan(st, lines).meetPlace == Some(FirstPlaceDate(lines).value.0)
              && HeaderScan(st, lines).meetDate == Some(FirstPlaceDate(lines).value.1)
    ensures st.meetDate.None? && FirstPlaceDate(lines).None? ==> HeaderScan(st, lines).meetDate.None?
    decreases |lines|
  {
    if lines != [] {
      var init := lines[..|lines| - 1];
      var x := lines[|lines| - 1];
      assert lines == init + [x];
      HeaderScanTakesFirst(st, init);
      FirstMeetNameSnoc(init, x);
      FirstPlaceDateSnoc(init, x);
    }
  }

  // ---------------------------------------------------------------------------
  // One sub-line
  // ---------------------------------------------------------------------------

  /** `up.startswith(("DSQ", "NP", "BAJA"))` on the upper-cased line. */
  predicate IsSkipLine(ln: string): (b: bool)
    ensures b ==> ln != []
  {
    var up := Upper(ln);
    OccursAt(up, "DSQ", 0) || OccursAt(up, "NP", 0) || OccursAt(up, "BAJA", 0)
  }

  /** `current_event or "UNKNOWN"` */
  function EventOrUnknown(event: Option<string>): (e: string)
    ensures e != []
    ensures event.Some? && event.value != [] ==> e == event.value
  {
    if event.Some? && event.value != [] then event.value else "UNKNOWN"
  }

  /**
    An event heading: its number and sex, and the event name and upper-cased category
    read from the rest of the heading.
   */
  function EventState(st: ParseState, head: EventHead): ParseState {
    var ec := ExtractEventAndCategory(Strip(head.rest));
    st.(eventNum := Some(head.num), sex := Some(head.sex), event := Some(ec.event),
        cat := if ec.category.Some? then Some(Upper(ec.category.value)) else None)
  }

  /** The time group of a cleaned line whose time starts at `start`, as the time parser gets it. */
  function TimeGroup(ln: string, start: nat): string
    requires start <= TextEnd(ln)
  {
    TimeText(ln[start..TextEnd(ln)])
  }

  /**
    What every emitted row satisfies: it carries the caller's category and a known
    event name, and its line opens with a rank and ends with a time whose value is the
    row's time.
   */
  predicate WellFormedRow(r: Row, category: string) {
    r.category == category && r.event != [] && HasRankPrefix(r.rawLine)
    && TimeAtEnd(r.rawLine).Some?
    && TimeToCentis(TimeGroup(r.rawLine, TimeAtEnd(r.rawLine).value)) == Some(r.timeCentis)
    && (r.age.Some? ==> r.age.value <= 99)
  }

  /**
    A line that is neither an event heading nor a skipped line: the trailing noise is
    dropped, and a row is made when a time ends the line, a rank opens it and the time
    parses.
   */
  function ResultRow(st: ParseState, sub: string, category: string): Option<Row> {
    var ln := DropTrailingNoise(sub);
    var mt := TimeAtEnd(ln);
    if mt.None? || !HasRankPrefix(ln) then None
    else
      match TimeToCentis(TimeGroup(ln, mt.value))
      case None => None
      case Some(t) =>
        var nm := NameAndYear(CollapseWs(Strip(ln[..mt.value])));
        Some(Row(category, st.meetName, st.meetPlace, st.meetDate, st.eventNum, st.sex,
                 EventOrUnknown(st.event), st.cat, nm.0, nm.1, t, ln))
  }

  /** One sub-line: an event heading changes the state, any other line may yield a row. */
  function LineStep(st: ParseState, sub: string, category: string): (ParseState, Option<Row>) {
    match EventLine(Strip(sub))
    case Some(head) => (EventState(st, head), None)
    case None => (st, if IsSkipLine(sub) then None else ResultRow(st, sub, category))
  }

  /**
    A row is made from the cleaned line and the current state, and is well formed:
    its line opens with a rank and ends with a time whose value is the row's time.
   */
  lemma ResultRowIsWellFormed(st: ParseState, sub: string, category: string)
    requires ResultRow(st, sub, category).Some?
    ensures WellFormedRow(ResultRow(st, sub, category).value, category)
    ensures ResultRow(st, sub, category).value.rawLine == DropTrailingNoise(sub)
    ensures ResultRow(st, sub, category).value.event == EventOrUnknown(st.event)
    ensures ResultRow(st, sub, category).value.eventCategory == st.cat
    ensures ResultRow(st, sub, category).value.sex == st.sex
    ensures ResultRow(st, sub, category).value.meetDate == st.meetDate
  {
  }

  /** An event heading emits no row, sets the sex to FEM or MASC and upper-cases the category. */
  lemma EventLineStep(st: ParseState, sub: string, category: string)
    requires EventLine(Strip(sub)).Some?
    ensures LineStep(st, sub, category).1.None?
    ensures LineStep(st, sub, category).0.sex == Some("FEM") || LineStep(st, sub, category).0.sex == Some("MASC")
    ensures LineStep(st, sub, category).0.eventNum == Some(EventLine(Strip(sub)).value.num)
    ensures LineStep(st, sub, category).0.cat.Some? ==>
              var ec := ExtractEventAndCategory(Strip(EventLine(Strip(sub)).value.rest));
              ec.category.Some? && LineStep(st, sub, category).0.cat.value == Upper(ec.category.value)
  {
  }

  /** A line starting with DSQ, NP or BAJA (any case) emits no row and changes nothing. */
  lemma SkipLineStep(st: ParseState, sub: string, category: string)
    requires EventLine(Strip(sub)).None? && IsSkipLine(sub)
    ensures LineStep(st, sub, category) == (st, None)
  {
  }

  /** The step of an event heading. */
  lemma EventStepIs(st: ParseState, sub: string, category: string, head: EventHead)
    requires EventLine(Strip(sub)) == Some(head)
    ensures LineStep(st, sub, category) == (EventState(st, head), None)
  {
  }

  /** The step of a line that ends without a time, opens without a rank, or whose time does not parse. */
  lemma NoRowStepIs(st: ParseState, sub: string, category: string)
    requires EventLine(Strip(sub)).None? && !IsSkipLine(sub)
    requires var ln := DropTrailingNoise(sub);
             TimeAtEnd(ln).None? || !HasRankPrefix(ln) || TimeToCentis(TimeGroup(ln, TimeAtEnd(ln).value)).None?
    ensures LineStep(st, sub, category) == (st, None)
  {
  }

  /** The step of a result line: the row built from the cleaned line and its parts. */
  lemma RowStepIs(st: ParseState, sub: string, category: string, ln: string, start: nat, t: nat, name: string, yy: Option<nat>)
    requires EventLine(Strip(sub)).None? && !IsSkipLine(sub)
    requires ln == DropTrailingNoise(sub) && TimeAtEnd(ln) == Some(start) && HasRankPrefix(ln)
    requires TimeToCentis(TimeGroup(ln, start)) == Some(t)
    requires (name, yy) == NameAndYear(CollapseWs(Strip(ln[..start])))
    ensures LineStep(st, sub, category)
            == (st, Some(Row(category, st.meetName, st.meetPlace, st.meetDate, st.eventNum, st.sex,
                             EventOrUnknown(st.event), st.cat, name, yy, t, ln)))
  {
    ResultRowIs(st, sub, category, ln, start, t, name, yy);
  }

  lemma ResultRowIs(st: ParseState, sub: string, category: string, ln: string, start: nat, t: nat, name: string, yy: Option<nat>)
    requires ln == DropTrailingNoise(sub) && TimeAtEnd(ln) == Some(start) && HasRankPrefix(ln)
    requires TimeToCentis(TimeGroup(ln, start)) == Some(t)
    requires (name, yy) == NameAndYear(CollapseWs(Strip(ln[..start])))
    ensures ResultRow(st, sub, category)
            == Some(Row(category, st.meetName, st.meetPlace, st.meetDate, st.eventNum, st.sex,
                        EventOrUnknown(st.event), st.cat, name, yy, t, ln))
  {
  }

  /** Any sub-line: a row it emits is well formed, and the meet fields are untouched. */
  lemma StepFacts(st: ParseState, sub: string, category: string)
    ensures LineStep(st, sub, category).1.Some? ==> WellFormedRow(LineStep(st, sub, category).1.value, category)
    ensures LineStep(st, sub, category).0.meetName == st.meetName
    ensures LineStep(st, sub, category).0.meetPlace == st.meetPlace
    ensures LineStep(st, sub, category).0.meetDate == st.meetDate
  {
    if EventLine(Strip(sub)).None? && !IsSkipLine(sub) && ResultRow(st, sub, category).Some? {
      ResultRowIsWellFormed(st, sub, category);
    }
  }

  // ---------------------------------------------------------------------------
  // The loops over sub-lines, lines and pages
  // ---------------------------------------------------------------------------

  predicate AllWellFormed(rows: seq<Row>, category: string) {
    forall k :: 0 <= k < |rows| ==> WellFormedRow(rows[k], category)
  }

  /** What the loops keep: rows are only appended, each well formed, and the meet fields are set once. */
  predicate Extends(a: Acc, r: Acc, category: string) {
    |a.rows| <= |r.rows| && r.rows[..|a.rows|] == a.rows
    && (AllWellFormed(a.rows, category) ==> AllWellFormed(r.rows, category))
    && KeepsMeet(a.st, r.st)
  }

  lemma ExtendsTrans(a: Acc, b: Acc, c: Acc, category: string)
    requires Extends(a, b, category) && Extends(b, c, category)
    ensures Extends(a, c, category)
  {
    assert c.rows[..|b.rows|][..|a.rows|] == c.rows[..|a.rows|];
  }

  /** The row a step emits, as a list of zero or one rows. */
  function RowsOf(row: Option<Row>): seq<Row> {
    if row.Some? then [row.value] else []
  }

  /** One sub-line added to the accumulator. */
  function Emit(a: Acc, sub: string, category: string): Acc {
    var step := LineStep(a.st, sub, category);
    Acc(step.0, a.rows + RowsOf(step.1))
  }

  lemma EmitExtends(a: Acc, sub: string, category: string)
    ensures Extends(a, Emit(a, sub, category), category)
    ensures |Emit(a, sub, category).rows| <= |a.rows| + 1
  {
    var step := LineStep(a.st, sub, category);
    StepFacts(a.st, sub, category);
    StepExtends(a, step.0, step.1, category);
  }

  /** Appending at most one well-formed row while keeping the meet fields extends the accumulator. */
  lemma StepExtends(a: Acc, st: ParseState, row: Option<Row>, category: string)
    requires row.Some? ==> WellFormedRow(row.value, category)
    requires st.meetName == a.st.meetName && st.meetPlace == a.st.meetPlace && st.meetDate == a.st.meetDate
    ensures Extends(a, Acc(st, a.rows + RowsOf(row)), category)
    ensures |a.rows + RowsOf(row)| <= |a.rows| + 1
  {
    var r := a.rows + RowsOf(row);
    assert r[..|a.rows|] == a.rows;
    if AllWellFormed(a.rows, category) {
      forall k | 0 <= k < |r| ensures WellFormedRow(r[k], category) {
        if k < |a.rows| {
          assert r[k] == a.rows[k];
        } else {
          assert r[k] == row.value;
        }
      }
    }
  }

  /** The loop over the sub-lines of one line. */
  function SubLinesFold(a: Acc, subs: seq<string>, category: string): Acc
    decreases |subs|
  {
    if subs == [] then a
    else Emit(SubLinesFold(a, subs[..|subs| - 1], category), subs[|subs| - 1], category)
  }

  lemma {:induction false} SubLinesFoldExtends(a: Acc, subs: seq<string>, category: string)
    ensures Extends(a, SubLinesFold(a, subs, category), category)
    ensures |SubLinesFold(a, subs, category).rows| <= |a.rows| + |subs|
    decreases |subs|
  {
    if subs != [] {
      var mid := SubLinesFold(a, subs[..|subs| - 1], category);
      SubLinesFoldExtends(a, subs[..|subs| - 1], category);
      EmitExtends(mid, subs[|subs| - 1], category);
      ExtendsTrans(a, mid, SubLinesFold(a, subs, category), category);
    }
  }

  /** Number of sub-lines the lines split into. */
  function SubLineCount(lines: seq<string>): nat {
    if lines == [] then 0
    else SubLineCount(lines[..|lines| - 1]) + |SplitMultiSwimmer(lines[|lines| - 1])|
  }

  /** The loop over the lines of a page, each split into sub-lines. */
  function LinesFold(a: Acc, lines: seq<string>, category: string): Acc
    decreases |lines|
  {
    if lines == [] then a
    else SubLinesFold(LinesFold(a, lines[..|lines| - 1], category), SplitMultiSwimmer(lines[|lines| - 1]), category)
  }

  lemma {:induction false} LinesFoldExtends(a: Acc, lines: seq<string>, category: string)
    ensures Extends(a, LinesFold(a, lines, category), category)
    ensures |LinesFold(a, lines, category).rows| <= |a.rows| + SubLineCount(lines)
    decreases |lines|
  {
    if lines != [] {
      var mid := LinesFold(a, lines[..|lines| - 1], category);
      LinesFoldExtends(a, lines[..|lines| - 1], category);
      SubLinesFoldExtends(mid, SplitMultiSwimmer(lines[|lines| - 1]), category);
      ExtendsTrans(a, mid, LinesFold(a, lines, category), category);
    }
  }

  /** Number of sub-lines of all pages. */
  function PagesSubLineCount(pages: seq<string>): nat {
    if pages == [] then 0
    else PagesSubLineCount(pages[..|pages| - 1]) + SubLineCount(PageLines(pages[|pages| - 1]))
  }

  /** One page: the header scan over its first ten lines, then its lines. */
  function PageStep(a: Acc, page: string, category: string): Acc {
    var lines := PageLines(page);
    LinesFold(a.(st := HeaderScan(a.st, FirstTen(lines))), lines, category)
  }

  lemma PageStepExtends(a: Acc, page: string, category: string)
    ensures Extends(a, PageStep(a, page, category), category)
    ensures |PageStep(a, page, category).rows| <= |a.rows| + SubLineCount(PageLines(page))
  {
    var lines := PageLines(page);
    var b := a.(st := HeaderScan(a.st, FirstTen(lines)));
    assert a.rows[..|a.rows|] == a.rows;
    assert Extends(a, b, category);
    LinesFoldExtends(b, lines, category);
    ExtendsTrans(a, b, PageStep(a, page, category), category);
  }

  /** The loop over the pages. */
  function PagesFold(a: Acc, pages: seq<string>, category: string): Acc
    decreases |pages|
  {
    if pages == [] then a
    else PageStep(PagesFold(a, pages[..|pages| - 1], category), pages[|pages| - 1], category)
  }

  lemma {:induction false} PagesFoldExtends(a: Acc, pages: seq<string>, category: string)
    ensures Extends(a, PagesFold(a, pages, category), category)
    ensures |PagesFold(a, pages, category).rows| <= |a.rows| + PagesSubLineCount(pages)
    decreases |pages|
  {
    if pages == [] {
      assert a.rows[..|a.rows|] == a.rows;
    } else {
      var mid := PagesFold(a, pages[..|pages| - 1], category);
      PagesFoldExtends(a, pages[..|pages| - 1], category);
      PageStepExtends(mid, pages[|pages| - 1], category);
      ExtendsTrans(a, mid, PagesFold(a, pages, category), category);
    }
  }

  lemma PagesFoldSnoc(a: Acc, pages: seq<string>, p: nat, category: string)
    requires p < |pages|
    ensures PagesFold(a, pages[..p + 1], category) == PageStep(PagesFold(a, pages[..p], category), pages[p], category)
  {
    assert pages[..p + 1][..p] == pages[..p];
  }

  /** `parse_splash_results` over the page texts: the rows in page-then-line order. */
  function SplashRows(pages: seq<string>, category: string): (rows: seq<Row>)
    ensures |rows| <= PagesSubLineCount(pages)
  {
    PagesFoldExtends(Acc(Initial, []), pages, category);
    PagesFold(Acc(Initial, []), pages, category).rows
  }

  /** Every row is well formed, and there are at most as many rows as sub-lines. */
  lemma SplashRowsWellFormed(pages: seq<string>, category: string)
    ensures AllWellFormed(SplashRows(pages, category), category)
    ensures |SplashRows(pages, category)| <= PagesSubLineCount(pages)
  {
    PagesFoldExtends(Acc(Initial, []), pages, category);
  }

  /**
    Reading more pages never changes a meet field that is already set: the name, and
    the place with the date, are each set at most once, and together.
   */
  lemma MeetSetOnce(a: Acc, pages: seq<string>, category: string)
    ensures KeepsMeet(a.st, PagesFold(a, pages, category).st)
  {
    PagesFoldExtends(a, pages, category);
  }

  /** A line that is cut into several swimmer pieces yields no row: no piece opens with a rank. */
  lemma MultiSwimmerLineYieldsNoRow(a: Acc, ln: string, category: string)
    requires |NameStarts(ln, 0)| >= 2
    ensures SubLinesFold(a, SplitMultiSwimmer(ln), category).rows == a.rows
  {
    var subs := SplitMultiSwimmer(ln);
    assert subs[..|subs|] == subs;
    PiecesStartWithName(ln);
    NoRowFromPieces(a, subs, |subs|, category);
  }

  lemma {:induction false} NoRowFromPieces(a: Acc, subs: seq<string>, n: nat, category: string)
    requires n <= |subs|
    requires forall k :: 0 <= k < |subs| ==> subs[k] != [] && IsNameUpper(subs[k][0])
    ensures SubLinesFold(a, subs[..n], category).rows == a.rows
  {
    if n == 0 {
      assert subs[..n] == [];
    } else {
      NoRowFromPieces(a, subs, n - 1, category);
      SubLinesFoldSnoc(a, subs, n - 1, category);
      EmitNoRow(SubLinesFold(a, subs[..n - 1], category), subs[n - 1], category);
    }
  }

  /** A piece opening with a capital letter leaves the rows as they are. */
  lemma EmitNoRow(a: Acc, p: string, category: string)
    requires p != [] && IsNameUpper(p[0])
    ensures Emit(a, p, category).rows == a.rows
  {
    PieceStepNoRow(a.st, p, category);
    assert a.rows + [] == a.rows;
  }

  /** A piece opening with a capital letter emits no row. */
  lemma PieceStepNoRow(st: ParseState, p: string, category: string)
    requires p != [] && IsNameUpper(p[0])
    ensures LineStep(st, p, category).1.None?
  {
    if EventLine(Strip(p)).Some? {
      EventLineStep(st, p, category);
    } else if IsSkipLine(p) {
      SkipLineStep(st, p, category);
    } else {
      PieceHasNoRank(p);
      NoRowStepIs(st, p, category);
    }
  }

  /** A piece opening with a capital letter keeps it after the trailing clean-ups, so it has no rank prefix. */
  lemma PieceHasNoRank(p: string)
    requires p != [] && IsNameUpper(p[0])
    ensures !HasRankPrefix(DropTrailingNoise(p))
  {
    var ln := DropTrailingNoise(p);
    if ln != [] {
      assert ln[0] == p[0];
      assert !IsDigit(ln[0]);
      assert DigitRun(ln, 0) == 0;
    }
  }

  // ---------------------------------------------------------------------------
  // parse_splash_results
  // ---------------------------------------------------------------------------

  /**
    `parse_splash_results` as the source runs it: for each page the header loop over
    its first ten lines, then the loop over its lines and their sub-lines, carrying
    the meet and event variables and appending rows.
   */
  method ParseSplashResults(pages: seq<string>, category: string) returns (rows: seq<Row>)
    ensures rows == SplashRows(pages, category)
  {
    var acc := Acc(Initial, []);
    var p := 0;
    while p < |pages|
      invariant 0 <= p <= |pages|
      invariant acc == PagesFold(Acc(Initial, []), pages[..p], category)
    {
      var lines := PageLines(pages[p]);
      var st := ScanHeader(acc.st, FirstTen(lines));
      acc := ParseLines(Acc(st, acc.rows), lines, category);
      PagesFoldSnoc(Acc(Initial, []), pages, p, category);
      p := p + 1;
    }
    assert pages[..p] == pages;
    rows := acc.rows;
  }

  /** The header loop over the first lines of a page. */
  method ScanHeader(st0: ParseState, head: seq<string>) returns (st: ParseState)
    ensures st == HeaderScan(st0, head)
  {
    st := st0;
    var h := 0;
    while h < |head|
      invariant 0 <= h <= |head|
      invariant st == HeaderScan(st0, head[..h])
    {
      st := HeaderLine(st, head[h]);
      HeaderScanSnoc(st0, head, h);
      h := h + 1;
    }
    assert head[..h] == head;
  }

  /** One header line: the first line naming a meet sets its name, the first place and date line sets both. */
  method HeaderLine(st0: ParseState, ln: string) returns (st: ParseState)
    ensures st == HeaderStep(st0, ln)
  {
    st := st0;
    if st.meetName.None? && NamesMeet(ln) {
      st := st.(meetName := Some(Strip(ln)));
    }
    var m := PlaceDateLine(ln);
    if m.Some? && st.meetDate.None? {
      st := st.(meetPlace := Some(m.value.0), meetDate := Some(m.value.1));
    }
  }

  lemma HeaderScanSnoc(st0: ParseState, head: seq<string>, h: nat)
    requires h < |head|
    ensures HeaderScan(st0, head[..h + 1]) == HeaderStep(HeaderScan(st0, head[..h]), head[h])
  {
    assert head[..h + 1][..h] == head[..h];
  }

  /** The loop over the lines of a page, each cut into its swimmer pieces. */
  method ParseLines(a: Acc, lines: seq<string>, category: string) returns (r: Acc)
    ensures r == LinesFold(a, lines, category)
  {
    r := a;
    var i := 0;
    while i < |lines|
      invariant 0 <= i <= |lines|
      invariant r == LinesFold(a, lines[..i], category)
    {
      r := ParseSubLines(r, SplitMultiSwimmer(lines[i]), category);
      LinesFoldSnoc(a, lines, i, category);
      i := i + 1;
    }
    assert lines[..i] == lines;
  }

  lemma LinesFoldSnoc(a: Acc, lines: seq<string>, i: nat, category: string)
    requires i < |lines|
    ensures LinesFold(a, lines[..i + 1], category)
            == SubLinesFold(LinesFold(a, lines[..i], category), SplitMultiSwimmer(lines[i]), category)
  {
    assert lines[..i + 1][..i] == lines[..i];
  }

  /** The loop over the swimmer pieces of one line. */
  method ParseSubLines(a: Acc, subs: seq<string>, category: string) returns (r: Acc)
    ensures r == SubLinesFold(a, subs, category)
  {
    r := a;
    var j := 0;
    while j < |subs|
      invariant 0 <= j <= |subs|
      invariant r == SubLinesFold(a, subs[..j], category)
    {
      r := ParseSubLine(r, subs[j], category);
      SubLinesFoldSnoc(a, subs, j, category);
      j := j + 1;
    }
    assert subs[..j] == subs;
  }

  lemma SubLinesFoldSnoc(a: Acc, subs: seq<string>, j: nat, category: string)
    requires j < |subs|
    ensures SubLinesFold(a, subs[..j + 1], category) == Emit(SubLinesFold(a, subs[..j], category), subs[j], category)
  {
    assert subs[..j + 1][..j] == subs[..j];
  }

  /**
    One sub-line: an event heading sets the event variables; a line starting with
    DSQ, NP or BAJA is skipped; otherwise the trailing noise is dropped and a row is
    appended when a time ends the line, a rank opens it and the time parses.
   */
  method ParseSubLine(a: Acc, ln0: string, category: string) returns (r: Acc)
    ensures r == Emit(a, ln0, category)
  {
    var st := a.st;
    var rows := a.rows;
    var m := EventLine(Strip(ln0));
    if m.Some? {
      var currentEventNum := Some(m.value.num);
      var currentSex := Some(m.value.sex);
      var rest := Strip(m.value.rest);
      var ec := ExtractEventAndCategory(rest);
      var currentCat := ec.category;
      if currentCat.Some? {
        currentCat := Some(Upper(currentCat.value));
      }
      st := st.(eventNum := currentEventNum, sex := currentSex, event := Some(ec.event), cat := currentCat);
      assert Acc(st, rows) == Emit(a, ln0, category) by {
        EventStepIs(a.st, ln0, category, m.value);
      }
    } else if !IsSkipLine(ln0) {
      var ln := DropTrailingNoise(ln0);
      var mt := TimeAtEnd(ln);
      if mt.Some? && HasRankPrefix(ln) {
        var tSec := TimeToCentis(TimeGroup(ln, mt.value));
        if tSec.Some? {
          var prefix := CollapseWs(Strip(ln[..mt.value]));
          var swimmer, yob2 := ExtractNameYob(prefix);
          rows := rows + [Row(category, st.meetName, st.meetPlace, st.meetDate, st.eventNum, st.sex,
                              EventOrUnknown(st.event), st.cat, swimmer, yob2, tSec.value, ln)];
          assert Acc(st, rows) == Emit(a, ln0, category) by {
            RowStepIs(a.st, ln0, category, ln, mt.value, tSec.value, swimmer, yob2);
          }
        } else {
          assert Acc(st, rows) == Emit(a, ln0, category) by {
            NoRowStepIs(a.st, ln0, category);
            assert a.rows + [] == a.rows;
          }
        }
      } else {
        assert Acc(st, rows) == Emit(a, ln0, category) by {
          NoRowStepIs(a.st, ln0, category);
          assert a.rows + [] == a.rows;
        }
      }
    } else {
      assert Acc(st, rows) == Emit(a, ln0, category) by {
        SkipLineStep(a.st, ln0, category);
        assert a.rows + [] == a.rows;
      }
    }
    r := Acc(st, rows);
  }
}
