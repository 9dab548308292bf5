/**
  `score_results_pdf` and `is_results_pdf` of swimstats/detect.py: how much the text of
  a document's first pages looks like a Splash Meet Manager results list. The PDF
  library is not modelled: a document is its list of page texts (`None` for a page
  without text), or `None` as a whole when the library fails to open it.
 */
module Detect {
  import opened Wrappers
  import opened Text
  import opened Stats

  /** The most rank lines that count towards the score. */
  const MaxRankHits: nat := 6

  /** `score_results_pdf`'s default number of pages. */
  const DefaultMaxPages: nat := 2

  /** `is_results_pdf`'s default threshold. */
  const DefaultThreshold: int := 6

  function Min(a: nat, b: nat): nat { if a <= b then a else b }

  // ---------------------------------------------------------------------------
  // RANK_LINE
  // ---------------------------------------------------------------------------

  /**
    `\d+:\d{2}[.,]\d{1,2}|\d+:\d{2}` matches the whole of `t`. Each digit group must be
    a whole run, because the character after it (`:`, `.`, `,` or the end) is not a digit.
   */
  predicate IsColonTime(t: string) {
    var n := DigitRun(t, 0);
    0 < n < |t| && t[n] == ':' && DigitRun(t, n + 1) == 2
    && (n + 3 == |t| || (n + 5 <= |t| <= n + 6 && IsFracSep(t[n + 3]) && DigitRun(t, n + 4) == |t| - (n + 4)))
  }

  /** The two alternatives are exactly the two colon shapes of `time_to_seconds`. */
  lemma ColonTimeIff(t: string)
    ensures IsColonTime(t) <==> (exists k :: MinSecFracAt(t, k)) || (exists k :: MinSecAt(t, k))
  {
    ShapesAtRun(t);
    var n := DigitRun(t, 0);
    if IsColonTime(t) {
      if n + 3 == |t| {
        assert MinSecAt(t, n);
      } else {
        assert MinSecFracAt(t, n);
      }
    }
  }

  /** A colon time holds no whitespace. */
  lemma ColonTimeHasNoSpace(t: string)
    requires IsColonTime(t)
    ensures forall i :: 0 <= i < |t| ==> !IsSpace(t[i])
  {
    var n := DigitRun(t, 0);
    forall i | 0 <= i < |t| ensures !IsSpace(t[i]) {
      if n + 3 < |t| && n + 4 <= i {
        assert IsDigit(t[i]);
      }
    }
  }

  /** Index of the last whitespace character of `t`, if there is one. */
  function LastSpace(t: string): (r: Option<nat>)
    ensures r.Some? ==> r.value < |t| && IsSpace(t[r.value])
  {
    if t == [] then None
    else if IsSpace(t[|t| - 1]) then Some(|t| - 1)
    else LastSpace(t[..|t| - 1])
  }

  /** No whitespace follows the last whitespace, and there is none at all without one. */
  lemma {:induction false} LastSpaceIsLast(t: string)
    ensures forall i :: 0 <= i < |t| && (LastSpace(t).None? || LastSpace(t).value < i) ==> !IsSpace(t[i])
  {
    if t != [] && !IsSpace(t[|t| - 1]) {
      var s := t[..|t| - 1];
      LastSpaceIsLast(s);
      assert forall i :: 0 <= i < |s| ==> s[i] == t[i];
    }
  }

  /** The whitespace at `j` with none after it is the last whitespace. */
  lemma LastSpaceIs(t: string, j: nat)
    requires j < |t| && IsSpace(t[j])
    requires forall i :: j < i < |t| ==> !IsSpace(t[i])
    ensures LastSpace(t) == Some(j)
  {
  }

  lemma LastSpaceBeforeSuffix(t: string, c: nat)
    requires 0 < c <= |t| && IsSpace(t[c - 1])
    requires forall i :: 0 <= i < |t[c..]| ==> !IsSpace(t[c..][i])
    ensures LastSpace(t) == Some(c - 1)
  {
    assert forall i :: c <= i < |t| ==> t[i] == t[c..][i - c];
    LastSpaceIs(t, c - 1);
  }

  /**
    `RANK_LINE.match(t)` for a stripped line `t`: a rank of one to three digits and a dot,
    whitespace, some text, whitespace, and a colon time running to the end. The time holds
    no whitespace, so it is everything after the last whitespace character.
   */
  predicate IsRankLine(t: string): (b: bool)
    ensures b ==> |t| >= 6 && IsDigit(t[0])
  {
    RankShape(t, DigitRun(t, 0), LastSpace(t))
  }

  /**
    The rank line's shape with the length `d` of the leading digit run and the position
    `last` of the last whitespace character given.
   */
  predicate RankShape(t: string, d: nat, last: Option<nat>) {
    1 <= d <= 3 && d + 1 < |t| && t[d] == '.' && IsSpace(t[d + 1])
    && match last
       case None => false
       case Some(j) => d + 3 <= j < |t| && IsColonTime(t[j + 1..])
  }

  /**
    The pattern with its parts placed: rank digits `t[..d]`, the dot `t[d]`, whitespace
    `t[d + 1..a]`, any text `t[a..b]`, whitespace `t[b..c]` and the time `t[c..]`.
   */
  predicate RankLineAt(t: string, d: nat, a: nat, b: nat, c: nat) {
    1 <= d <= 3 && d + 1 < a < b < c <= |t|
    && DigitsIn(t, 0, d) && t[d] == '.'
    && (forall i :: d + 1 <= i < a ==> IsSpace(t[i]))
    && (forall i :: b <= i < c ==> IsSpace(t[i]))
    && IsColonTime(t[c..])
  }

  /** A line without `\n` (every line `splitlines` gives) is a rank line exactly when the pattern can be placed on it. */
  lemma RankLineIff(t: string)
    requires forall i :: 0 <= i < |t| ==> t[i] != '\n'
    ensures IsRankLine(t) <==> exists d, a, b, c :: RankLineAt(t, d, a, b, c)
  {
    if IsRankLine(t) {
      ShapePlaced(t, DigitRun(t, 0), LastSpace(t).value);
    }
    if exists d, a, b, c :: RankLineAt(t, d, a, b, c) {
      var d, a, b, c :| RankLineAt(t, d, a, b, c);
      RankLineParts(t, d, a, b, c);
    }
  }

  lemma RankLineParts(t: string, d: nat, a: nat, b: nat, c: nat)
    requires RankLineAt(t, d, a, b, c)
    ensures IsRankLine(t)
  {
    DigitRunOfDigits(t, 0, d);
    ColonTimeHasNoSpace(t[c..]);
    LastSpaceBeforeSuffix(t, c);
    PlacedShape(t, d, a, b, c);
  }

  /** The shape places the pattern: the whitespace runs are the single characters after the dot and at `j`. */
  lemma ShapePlaced(t: string, d: nat, j: nat)
    requires DigitRun(t, 0) == d && RankShape(t, d, Some(j)) && IsSpace(t[j])
    ensures RankLineAt(t, d, d + 2, j, j + 1)
  {
    assert DigitsIn(t, 0, d);
    assert IsColonTime(t[j + 1..]);
    assert IsSpace(t[d + 1]) && IsSpace(t[j]);
  }

  /** A placed pattern gives the shape, with the last whitespace just before the time. */
  lemma PlacedShape(t: string, d: nat, a: nat, b: nat, c: nat)
    requires RankLineAt(t, d, a, b, c)
    ensures RankShape(t, d, Some(c - 1))
  {
    assert IsSpace(t[d + 1]) && t[c - 1 + 1..] == t[c..];
  }

  // ---------------------------------------------------------------------------
  // The keyword tests
  // ---------------------------------------------------------------------------

  /**
    `\bPRUEBA\s+\d+\b` matches at `i`. The whitespace run and the digit run are taken
    whole: a shorter `\s+` would leave `\d+` facing whitespace, and a shorter `\d+` ends
    between two digits, where there is no word boundary.
   */
  predicate PruebaAt(up: string, i: nat) {
    i + 6 <= |up| && IsBoundary(up, i) && up[i..i + 6] == "PRUEBA"
    && var k := SkipSpaces(up, i + 6);
    k > i + 6 && DigitRun(up, k) > 0 && IsBoundary(up, k + DigitRun(up, k))
  }

  /** `re.search(r"\bPRUEBA\s+\d+\b", up)` from index `from` on. */
  function PruebaFrom(up: string, from: nat): (r: bool)
    requires from <= |up|
    ensures r <==> exists i :: from <= i <= |up| && PruebaAt(up, i)
    decreases |up| - from
  {
    PruebaAt(up, from) || (from < |up| && PruebaFrom(up, from + 1))
  }

  /** The points of the four keyword tests on the upper-cased text. */
  function KeywordScore(up: string): (r: nat)
    ensures r <= 9
    ensures r > 0 ==> |up| >= 2
  {
    (if Contains(up, "SPLASH MEET MANAGER") then 3 else 0)
    + (if Contains(up, "RESULTADOS") then 2 else 0)
    + (if PruebaFrom(up, 0) then 2 else 0)
    + (if Contains(up, "CLASIFICACI\U{D3}N") && Contains(up, "TIEMPO") then 2 else 0)
  }

  // ---------------------------------------------------------------------------
  // The score
  // ---------------------------------------------------------------------------

  /** How many of `xs` satisfy `p`, counted from the front. */
  function CountWhere(xs: seq<string>, p: string -> bool): (n: nat)
    ensures n <= |xs|
  {
    if xs == [] then 0 else CountWhere(xs[..|xs| - 1], p) + (if p(xs[|xs| - 1]) then 1 else 0)
  }

  /** The indices of `xs` whose element satisfies `p`. */
  function IndicesWhere(xs: seq<string>, p: string -> bool): set<int> {
    set i | 0 <= i < |xs| && p(xs[i])
  }

  /** `CountWhere` is the number of indices whose element satisfies `p`. */
  lemma {:induction false} CountWhereIsCard(xs: seq<string>, p: string -> bool)
    ensures CountWhere(xs, p) == |IndicesWhere(xs, p)|
  {
    if xs != [] {
      var n := |xs| - 1;
      CountWhereIsCard(xs[..n], p);
      assert forall i :: 0 <= i < n ==> xs[..n][i] == xs[i];
      assert IndicesWhere(xs, p) == IndicesWhere(xs[..n], p) + (if p(xs[n]) then {n} else {});
    }
  }

  /** A line that is a rank line once stripped. */
  predicate IsRankHit(line: string) { IsRankLine(Strip(line)) }

  /** How many of the lines are rank lines once stripped. */
  function RankHits(lines: seq<string>): nat {
    CountWhere(lines, IsRankHit)
  }

  /** `"\n".join((p.extract_text() or "") for p in pdf.pages[:max_pages])` */
  function Blob(pages: seq<Option<string>>, maxPages: nat): string {
    var n := Min(|pages|, maxPages);
    Join("\n", seq(n, i requires 0 <= i < n => pages[i].GetOr("")))
  }

  /** The score of a document: 0 when its text cannot be extracted. */
  function Score(pages: Option<seq<Option<string>>>, maxPages: nat): (r: nat)
    ensures r <= 15
    ensures pages.None? ==> r == 0
  {
    match pages
    case None => 0
    case Some(ps) =>
      var blob := Blob(ps, maxPages);
      KeywordScore(Upper(blob)) + Min(RankHits(SplitLines(blob)), MaxRankHits)
  }

  /** `score_results_pdf`: the keyword points, then the capped count of rank lines. */
  method ScoreResultsPdf(pages: Option<seq<Option<string>>>, maxPages: nat) returns (score: nat)
    ensures score == Score(pages, maxPages)
  {
    score := 0;
    if pages.Some? {
      var blob := Blob(pages.value, maxPages);
      var up := Upper(blob);
      if Contains(up, "SPLASH MEET MANAGER") {
        score := score + 3;
      }
      if Contains(up, "RESULTADOS") {
        score := score + 2;
      }
      if PruebaFrom(up, 0) {
        score := score + 2;
      }
      if Contains(up, "CLASIFICACI\U{D3}N") && Contains(up, "TIEMPO") {
        score := score + 2;
      }
      var hits := CountRankLines(SplitLines(blob));
      score := score + Min(hits, MaxRankHits);
    }
  }

  /** The loop over `blob.splitlines()` counting rank lines. */
  method CountRankLines(lines: seq<string>) returns (hits: nat)
    ensures hits == RankHits(lines)
  {
    hits := 0;
    for i := 0 to |lines|
      invariant hits == RankHits(lines[..i])
    {
      assert lines[..i + 1][..i] == lines[..i];
      if IsRankHit(lines[i]) {
        hits := hits + 1;
      }
    }
    assert lines[..|lines|] == lines;
  }

  /** `is_results_pdf`: the score of the first two pages, and whether it reaches the threshold. */
  method IsResultsPdf(pages: Option<seq<Option<string>>>, threshold: int) returns (isResults: bool, score: nat)
    ensures score == Score(pages, DefaultMaxPages)
    ensures isResults <==> score >= threshold
  {
    score := ScoreResultsPdf(pages, DefaultMaxPages);
    isResults := score >= threshold;
  }

  /**
    The score lies in 0..15: each keyword test adds its points once however often its
    keyword occurs (3 + 2 + 2 + 2), and at most six rank lines count.
   */
  lemma ScoreBounds(pages: Option<seq<Option<string>>>, maxPages: nat)
    ensures Score(pages, maxPages) <= 15
    ensures pages.None? ==> Score(pages, maxPages) == 0
  {
  }

  /** The rank lines add their number, up to six; the rest of the score comes from the keywords alone. */
  lemma RankLinesPart(ps: seq<Option<string>>, maxPages: nat)
    ensures var blob := Blob(ps, maxPages);
      var hits := |IndicesWhere(SplitLines(blob), IsRankHit)|;
      Score(Some(ps), maxPages) == KeywordScore(Upper(blob)) + (if hits <= MaxRankHits then hits else MaxRankHits)
  {
    CountWhereIsCard(SplitLines(Blob(ps, maxPages)), IsRankHit);
  }

  /** A document that cannot be opened is never taken for a results list under a positive threshold. */
  lemma UnreadableIsNotResults(threshold: int)
    requires threshold > 0
    ensures !(Score(None, DefaultMaxPages) >= threshold)
  {
  }

  /** A line in the layout of a results list counts as a rank line. */
  lemma RankLineExample()
    ensures IsRankLine("1. ANA 1:05.30")
  {
    ExampleRankAndSpace();
    ExampleShape();
  }

  /** The example's rank has one digit and its last whitespace is at index 6. */
  lemma ExampleRankAndSpace()
    ensures DigitRun("1. ANA 1:05.30", 0) == 1 && LastSpace("1. ANA 1:05.30") == Some(6)
  {
    DigitRunOfDigits("1. ANA 1:05.30", 0, 1);
    LastSpaceIs("1. ANA 1:05.30", 6);
  }

  /** The example has the rank-line shape with those two positions. */
  lemma ExampleShape()
    ensures RankShape("1. ANA 1:05.30", 1, Some(6))
  {
    assert "1. ANA 1:05.30"[7..] == "1:05.30";
    ExampleTimeIsColonTime();
  }

  lemma ExampleTimeIsColonTime()
    ensures IsColonTime("1:05.30")
  {
    var u := "1:05.30";
    DigitRunOfDigits(u, 0, 1);
    DigitRunOfDigits(u, 2, 4);
    DigitRunOfDigits(u, 5, 7);
  }

  /** A time without a colon ("58.70") does not make a rank line. */
  lemma ShortTimeIsNotRankLine()
    ensures !IsRankLine("2. EVA 58.70")
  {
    var t := "2. EVA 58.70";
    LastSpaceIs(t, 6);
    var u := t[7..];
    assert u == "58.70";
    assert DigitRun(u, 0) == 2 by { DigitRunOfDigits(u, 0, 2); }
  }
}
