/**
  The pure helpers of swimstats/report.py behind the swimmer PDF report: the file-name
  sanitiser, the word wrapper for long lines, the rank estimate against a list of times,
  and the row layout of the table drawer (which text lands at which position, and how
  many rows a `max_rows` limit lets through). Times are integer centiseconds and
  coordinates integers; the drawing itself is a list of `drawString` calls.
 */
module Report {
  import opened Wrappers
  import opened Text

  // ---------------------------------------------------------------------------
  // _safe_filename
  // ---------------------------------------------------------------------------

  /** The characters `[A-Za-z0-9 _-]` that the first substitution keeps. */
  predicate IsKeptChar(c: char) {
    IsAsciiLetter(c) || IsDigit(c) || c == ' ' || c == '_' || c == '-'
  }

  /** The characters a finished file name consists of: `[A-Za-z0-9_-]`. */
  predicate IsFileNameChar(c: char) {
    IsAsciiLetter(c) || IsDigit(c) || c == '_' || c == '-'
  }

  predicate AllKept(s: string) { forall i :: 0 <= i < |s| ==> IsKeptChar(s[i]) }

  predicate IsFileName(s: string) {
    1 <= |s| <= 120 && forall i :: 0 <= i < |s| ==> IsFileNameChar(s[i])
  }

  /** `re.sub(r"[^A-Za-z0-9 _-]+", "", s)`: drop every other character. */
  function KeepSafe(s: string): (r: string)
    ensures AllKept(r) && |r| <= |s|
  {
    if s == [] then []
    else (if IsKeptChar(s[0]) then [s[0]] else []) + KeepSafe(s[1..])
  }

  /** `re.sub(r"\s+", "_", s)`: every run of whitespace becomes one underscore. */
  function Underscored(s: string): (r: string)
    decreases |s|
  {
    if s == [] then []
    else if IsSpace(s[0]) then "_" + Underscored(s[SkipSpaces(s, 0)..])
    else [s[0]] + Underscored(s[1..])
  }

  /** `_safe_filename(s)`. */
  function SafeFilename(s: string): (r: string)
    ensures 1 <= |r| <= 120
  {
    var u := Underscored(Strip(KeepSafe(s)));
    if u == [] then "report" else if |u| <= 120 then u else u[..120]
  }

  /** Stripping keeps only characters of the input. */
  lemma StripKeepsKept(s: string)
    requires AllKept(s)
    ensures AllKept(Strip(s))
  {
    var l := LStrip(s);
    LStripSuffix(s);
    AllKeptSlice(s, |s| - |l|, |s|);
    assert l == s[|s| - |l|..|s|];
    var r := RStrip(l);
    AllKeptSlice(l, 0, |r|);
  }

  lemma AllKeptSlice(s: string, a: nat, b: nat)
    requires AllKept(s) && a <= b <= |s|
    ensures AllKept(s[a..b])
  {
    forall i | 0 <= i < b - a
      ensures IsKeptChar(s[a..b][i])
    {
      assert s[a..b][i] == s[a + i];
    }
  }

  /** Replacing the whitespace runs of a kept text leaves only file-name characters. */
  lemma {:induction false} UnderscoredIsFileChars(s: string)
    requires AllKept(s)
    ensures forall i :: 0 <= i < |Underscored(s)| ==> IsFileNameChar(Underscored(s)[i])
    decreases |s|
  {
    if s != [] {
      if IsSpace(s[0]) {
        var j := SkipSpaces(s, 0);
        AllKeptSlice(s, j, |s|);
        assert s[j..] == s[j..|s|];
        UnderscoredIsFileChars(s[j..]);
      } else {
        AllKeptSlice(s, 1, |s|);
        assert s[1..] == s[1..|s|];
        UnderscoredIsFileChars(s[1..]);
        assert IsFileNameChar(s[0]);
      }
    }
  }

  /** The result is a usable file name: one to 120 characters from `[A-Za-z0-9_-]`. */
  lemma SafeFilenameIsFileName(s: string)
    ensures IsFileName(SafeFilename(s))
  {
    var k := KeepSafe(s);
    StripKeepsKept(k);
    var u := Underscored(Strip(k));
    UnderscoredIsFileChars(Strip(k));
    if u != [] && |u| > 120 {
      assert forall i :: 0 <= i < 120 ==> u[..120][i] == u[i];
    }
  }

  /** A text without whitespace is left alone by the underscore substitution. */
  lemma {:induction false} UnderscoredNoSpace(s: string)
    requires forall i :: 0 <= i < |s| ==> IsFileNameChar(s[i])
    ensures Underscored(s) == s
  {
    if s != [] {
      assert !IsSpace(s[0]);
      UnderscoredNoSpace(s[1..]);
      assert [s[0]] + s[1..] == s;
    }
  }

  /** A text of file-name characters passes the first substitution unchanged. */
  lemma {:induction false} KeepSafeOfFileChars(s: string)
    requires forall i :: 0 <= i < |s| ==> IsFileNameChar(s[i])
    ensures KeepSafe(s) == s
  {
    if s != [] {
      KeepSafeOfFileChars(s[1..]);
      assert [s[0]] + s[1..] == s;
    }
  }

  /** A name that is already safe comes back unchanged. */
  lemma SafeFilenameOfFileName(s: string)
    requires IsFileName(s)
    ensures SafeFilename(s) == s
  {
    KeepSafeOfFileChars(s);
    assert !IsSpace(s[0]) && !IsSpace(s[|s| - 1]);
    StrippedIsFixed(s);
    UnderscoredNoSpace(s);
    assert s[..|s|] == s;
  }

  /** Sanitising twice is the same as sanitising once. */
  lemma SafeFilenameIdempotent(s: string)
    ensures SafeFilename(SafeFilename(s)) == SafeFilename(s)
  {
    SafeFilenameIsFileName(s);
    SafeFilenameOfFileName(SafeFilename(s));
  }

  // ---------------------------------------------------------------------------
  // _wrap_text_by_chars
  // ---------------------------------------------------------------------------

  /** One turn of the loop: the lines so far and the line being filled, after word `w`. */
  function WrapStep(lines: seq<string>, cur: string, w: string, maxChars: int): (seq<string>, string) {
    if cur == [] then (lines, w)
    else if |cur| + 1 + |w| <= maxChars then (lines, cur + " " + w)
    else (lines + [cur], w)
  }

  /** The loop over the remaining `words`, from the state `(lines, cur)`. */
  function WrapFold(words: seq<string>, lines: seq<string>, cur: string, maxChars: int): (seq<string>, string)
    decreases |words|
  {
    if words == [] then (lines, cur)
    else
      var next := WrapStep(lines, cur, words[0], maxChars);
      WrapFold(words[1..], next.0, next.1, maxChars)
  }

  /** After the loop: a non-empty line being filled is appended. */
  function Finish(state: (seq<string>, string)): seq<string> {
    if state.1 != [] then state.0 + [state.1] else state.0
  }

  /** `_wrap_text_by_chars(text, max_chars)`. */
  function WrapText(text: string, maxChars: int): (r: seq<string>)
    ensures |text| <= maxChars ==> r == [text]
  {
    if |text| <= maxChars then [text] else Finish(WrapFold(Split(text, ' '), [], "", maxChars))
  }

  /** The loop of `_wrap_text_by_chars`, building the lines word by word. */
  method WrapTextByChars(text: string, maxChars: int) returns (lines: seq<string>)
    ensures lines == WrapText(text, maxChars)
    ensures |text| <= maxChars ==> lines == [text]
  {
    if |text| <= maxChars {
      return [text];
    }
    var words := Split(text, ' ');
    lines := [];
    var cur := "";
    for i := 0 to |words|
      invariant WrapFold(words[i..], lines, cur, maxChars) == WrapFold(words, [], "", maxChars)
    {
      assert words[i..][1..] == words[i + 1..];
      var w := words[i];
      if cur == [] {
        cur := w;
      } else if |cur| + 1 + |w| <= maxChars {
        cur := cur + " " + w;
      } else {
        lines := lines + [cur];
        cur := w;
      }
    }
    assert words[|words|..] == [];
    if cur != [] {
      lines := lines + [cur];
    }
  }

  /** What every line of the wrapper satisfies: it is non-empty, and it fits or is one word. */
  predicate GoodLine(l: string, words: seq<string>, maxChars: int) {
    l != [] && (|l| <= maxChars || l in words)
  }

  /** The loop only ever closes good lines, and the line being filled fits or is one word. */
  lemma {:induction false} WrapFoldGood(words: seq<string>, all: seq<string>, lines: seq<string>, cur: string, maxChars: int)
    requires forall k :: 0 <= k < |words| ==> words[k] in all
    requires forall k :: 0 <= k < |lines| ==> GoodLine(lines[k], all, maxChars)
    requires cur == [] || |cur| <= maxChars || cur in all
    ensures var r := WrapFold(words, lines, cur, maxChars);
      (forall k :: 0 <= k < |r.0| ==> GoodLine(r.0[k], all, maxChars))
      && (r.1 == [] || |r.1| <= maxChars || r.1 in all)
    decreases |words|
  {
    if words != [] {
      var next := WrapStep(lines, cur, words[0], maxChars);
      assert words[0] in all;
      WrapFoldGood(words[1..], all, next.0, next.1, maxChars);
    }
  }

  /**
    Every line of a wrapped text is non-empty, and a line longer than `maxChars` is one
    of the words of the text.
   */
  lemma WrapTextLines(text: string, maxChars: int)
    requires |text| > maxChars
    ensures forall k :: 0 <= k < |WrapText(text, maxChars)| ==>
      GoodLine(WrapText(text, maxChars)[k], Split(text, ' '), maxChars)
  {
    var words := Split(text, ' ');
    WrapFoldGood(words, words, [], "", maxChars);
  }

  /** Merging two neighbouring pieces with the separator between them keeps the join. */
  lemma {:induction false} JoinMerge(sep: string, a: seq<string>, x: string, y: string, b: seq<string>)
    ensures Join(sep, a + [x + sep + y] + b) == Join(sep, a + [x, y] + b)
    decreases |a|
  {
    if a == [] {
      assert a + [x + sep + y] + b == [x + sep + y] + b;
      assert a + [x, y] + b == [x] + ([y] + b);
      JoinCons(sep, x, [y] + b);
      if b != [] {
        JoinCons(sep, x + sep + y, b);
        JoinCons(sep, y, b);
      }
    } else {
      assert a + [x + sep + y] + b == [a[0]] + (a[1..] + [x + sep + y] + b);
      assert a + [x, y] + b == [a[0]] + (a[1..] + [x, y] + b);
      JoinCons(sep, a[0], a[1..] + [x + sep + y] + b);
      JoinCons(sep, a[0], a[1..] + [x, y] + b);
      JoinMerge(sep, a[1..], x, y, b);
    }
  }

  /**
    With no empty word, the loop only regroups words: joining its lines with spaces gives
    the same text as joining the lines so far and the remaining words.
   */
  lemma {:induction false} WrapFoldJoin(words: seq<string>, lines: seq<string>, cur: string, maxChars: int)
    requires forall k :: 0 <= k < |words| ==> words[k] != []
    ensures Join(" ", Finish(WrapFold(words, lines, cur, maxChars))) == Join(" ", Finish((lines, cur)) + words)
    decreases |words|
  {
    if words != [] {
      var w := words[0];
      var rest := words[1..];
      assert words == [w] + rest;
      var next := WrapStep(lines, cur, w, maxChars);
      WrapFoldJoin(rest, next.0, next.1, maxChars);
      assert (next.0, next.1) == next;
      assert WrapFold(words, lines, cur, maxChars) == WrapFold(rest, next.0, next.1, maxChars);
      if cur == [] {
        assert Finish(next) + rest == Finish((lines, cur)) + words;
      } else if |cur| + 1 + |w| <= maxChars {
        assert Finish(next) + rest == lines + [cur + " " + w] + rest;
        assert Finish((lines, cur)) + words == lines + [cur] + ([w] + rest);
        assert lines + [cur] + ([w] + rest) == lines + [cur, w] + rest;
        JoinMerge(" ", lines, cur, w, rest);
      } else {
        assert Finish(next) + rest == Finish((lines, cur)) + words;
      }
    } else {
      assert Finish((lines, cur)) + words == Finish((lines, cur));
    }
  }

  /** For words separated by single spaces, joining the wrapped lines with spaces gives the text back. */
  lemma WrapTextJoin(text: string, maxChars: int)
    requires forall k :: 0 <= k < |Split(text, ' ')| ==> Split(text, ' ')[k] != []
    ensures Join(" ", WrapText(text, maxChars)) == text
  {
    if |text| > maxChars {
      var words := Split(text, ' ');
      WrapFoldJoin(words, [], "", maxChars);
      assert Finish(([], "")) + words == words;
      JoinSplit(text, ' ');
    }
  }

  // ---------------------------------------------------------------------------
  // _rank_estimate (integer parts)
  // ---------------------------------------------------------------------------

  /** `np.sum(arr < best)`. */
  function CountLess(times: seq<int>, best: int): nat {
    if times == [] then 0 else (if times[0] < best then 1 else 0) + CountLess(times[1..], best)
  }

  /** `np.sum(arr == best)`. */
  function CountEq(times: seq<int>, best: int): nat {
    if times == [] then 0 else (if times[0] == best then 1 else 0) + CountEq(times[1..], best)
  }

  /** The number of times slower than `best`. */
  function CountGreater(times: seq<int>, best: int): nat {
    if times == [] then 0 else (if times[0] > best then 1 else 0) + CountGreater(times[1..], best)
  }

  datatype RankEstimate = RankEstimate(rank: nat, n: nat, ties: nat)

  /** `_rank_estimate(all_times, best_time)` without the `tie_share` percentage. */
  function EstimateRank(times: seq<int>, best: int): (r: RankEstimate)
    ensures r.n == |times| && 1 <= r.rank <= r.n + 1 && r.rank - 1 + r.ties <= r.n
  {
    CountsPartition(times, best);
    RankEstimate(1 + CountLess(times, best), |times|, CountEq(times, best))
  }

  /** Every time is faster than, equal to or slower than `best`. */
  lemma {:induction false} CountsPartition(times: seq<int>, best: int)
    ensures CountLess(times, best) + CountEq(times, best) + CountGreater(times, best) == |times|
  {
    if times != [] {
      CountsPartition(times[1..], best);
    }
  }

  /** Rank 1 exactly when no time is faster than `best`. */
  lemma {:induction false} RankOneIff(times: seq<int>, best: int)
    ensures EstimateRank(times, best).rank == 1 <==> forall i :: 0 <= i < |times| ==> times[i] >= best
  {
    if times != [] {
      RankOneIff(times[1..], best);
      assert forall i :: 1 <= i < |times| ==> times[i] == times[1..][i - 1];
    }
  }

  /** Some tie exactly when `best` is one of the times. */
  lemma {:induction false} TiesIff(times: seq<int>, best: int)
    ensures EstimateRank(times, best).ties > 0 <==> best in times
  {
    if times != [] {
      TiesIff(times[1..], best);
      assert times == [times[0]] + times[1..];
    }
  }

  /** A faster best time never gets a worse rank. */
  lemma {:induction false} RankMonotone(times: seq<int>, b1: int, b2: int)
    requires b1 <= b2
    ensures EstimateRank(times, b1).rank <= EstimateRank(times, b2).rank
  {
    if times != [] {
      RankMonotone(times[1..], b1, b2);
    }
  }

  // ---------------------------------------------------------------------------
  // _draw_table (positions and row count)
  // ---------------------------------------------------------------------------

  /** One `c.drawString(x, y, text)` call. */
  datatype DrawCall = DrawString(x: int, y: int, text: string)

  function Sum(ws: seq<int>): int {
    if ws == [] then 0 else Sum(ws[..|ws| - 1]) + ws[|ws| - 1]
  }

  /** `str(cell)[:60]`. */
  function Clip(cell: string): (r: string)
    ensures |r| <= 60 && |r| <= |cell| && r == cell[..|r|]
  {
    if |cell| <= 60 then cell else cell[..60]
  }

  function Clipped(cells: seq<string>): (texts: seq<string>)
    ensures |texts| == |cells|
  {
    seq(|cells|, k requires 0 <= k < |cells| => Clip(cells[k]))
  }

  /** The calls drawing `texts` on one line at height `y`, column `i` at `x0` plus the widths before it. */
  function LineCalls(x0: int, y: int, widths: seq<int>, texts: seq<string>): (calls: seq<DrawCall>)
    requires |texts| <= |widths|
    ensures |calls| == |texts|
  {
    if texts == [] then []
    else
      var i := |texts| - 1;
      LineCalls(x0, y, widths, texts[..i]) + [DrawString(x0 + Sum(widths[..i]), y, texts[i])]
  }

  predicate FitsWidths(rows: seq<seq<string>>, widths: seq<int>) {
    forall j :: 0 <= j < |rows| ==> |rows[j]| <= |widths|
  }

  /** Height of body row `k` (0-based): each line one row height below the one before, the header at `y0`. */
  function RowY(y0: int, rowH: int, k: nat): int {
    if k == 0 then y0 - rowH else RowY(y0, rowH, k - 1) - rowH
  }

  /** Body row `k` sits `k + 1` row heights below the header. */
  lemma {:induction false} RowYClosedForm(y0: int, rowH: int, k: nat)
    ensures RowY(y0, rowH, k) == y0 - rowH * (k + 1)
  {
    if k > 0 {
      RowYClosedForm(y0, rowH, k - 1);
    }
  }

  /** The calls drawing the header and then the first `k` body rows. */
  function TableCalls(x0: int, y0: int, rowH: int, widths: seq<int>, header: seq<string>, rows: seq<seq<string>>, k: nat)
    : seq<DrawCall>
    requires |header| <= |widths| && k <= |rows| && FitsWidths(rows, widths)
  {
    if k == 0 then LineCalls(x0, y0, widths, header)
    else TableCalls(x0, y0, rowH, widths, header, rows, k - 1) + LineCalls(x0, RowY(y0, rowH, k - 1), widths, Clipped(rows[k - 1]))
  }

  /** The loop's `max_rows is not None and count >= max_rows` test. */
  predicate LimitReached(count: nat, maxRows: Option<int>) {
    maxRows.Some? && count >= maxRows.value
  }

  /** How many body rows the loop draws before `count >= max_rows` stops it. */
  function RowsDrawn(n: nat, maxRows: Option<int>): (d: nat)
    ensures d <= n
  {
    match maxRows
    case None => n
    case Some(m) => if m <= 0 then 0 else if m < n then m else n
  }

  /**
    `_draw_table`: the header at `y0`, then body rows one row height apart until the rows
    or the `max_rows` budget run out; returns the height below the last row.
   */
  method DrawTable(x0: int, y0: int, colWidths: seq<int>, header: seq<string>, rows: seq<seq<string>>,
                   rowH: int, maxRows: Option<int>)
    returns (y: int, calls: seq<DrawCall>)
    requires |header| <= |colWidths| && FitsWidths(rows, colWidths)
    ensures y == RowY(y0, rowH, RowsDrawn(|rows|, maxRows))
    ensures calls == TableCalls(x0, y0, rowH, colWidths, header, rows, RowsDrawn(|rows|, maxRows))
  {
    calls := DrawLine(x0, y0, colWidths, header);

    y := y0 - rowH;
    var count := 0;
    for j := 0 to |rows|
      invariant count == j <= RowsDrawn(|rows|, maxRows)
      invariant y == RowY(y0, rowH, count)
      invariant calls == TableCalls(x0, y0, rowH, colWidths, header, rows, count)
    {
      if LimitReached(count, maxRows) {
        break;
      }
      var line := DrawLine(x0, y, colWidths, Clipped(rows[j]));
      calls := calls + line;
      y := y - rowH;
      count := count + 1;
    }
    RowsDrawnAt(count, |rows|, maxRows);
  }

  /** A count up to the budget at which the rows run out or the limit is reached is the number drawn. */
  lemma RowsDrawnAt(count: nat, n: nat, maxRows: Option<int>)
    requires count <= RowsDrawn(n, maxRows)
    requires count == n || LimitReached(count, maxRows)
    ensures count == RowsDrawn(n, maxRows)
  {
  }

  /** The inner loop of `_draw_table`: one text per column, moving right by the column widths. */
  method DrawLine(x0: int, y: int, colWidths: seq<int>, texts: seq<string>) returns (calls: seq<DrawCall>)
    requires |texts| <= |colWidths|
    ensures calls == LineCalls(x0, y, colWidths, texts)
  {
    calls := [];
    var x := x0;
    for i := 0 to |texts|
      invariant x == x0 + Sum(colWidths[..i])
      invariant calls == LineCalls(x0, y, colWidths, texts[..i])
    {
      assert texts[..i + 1][..i] == texts[..i];
      assert colWidths[..i + 1][..i] == colWidths[..i];
      calls := calls + [DrawString(x, y, texts[i])];
      x := x + colWidths[i];
    }
    assert texts[..|texts|] == texts;
  }

  /** `RowsDrawn` is where the loop stops: no earlier count met the limit, and this one ends the rows or meets it. */
  lemma RowsDrawnStops(n: nat, maxRows: Option<int>)
    ensures var d := RowsDrawn(n, maxRows);
      (forall c: nat :: c < d ==> !LimitReached(c, maxRows)) && (d == n || LimitReached(d, maxRows))
  {
  }

  /** The call lies on one of the first `k` body rows. */
  ghost predicate OnBodyRow(c: DrawCall, y0: int, rowH: int, k: nat) {
    exists j :: 0 <= j < k && c.y == RowY(y0, rowH, j)
  }

  /** The table takes one call per header cell and one per body cell. */
  lemma {:induction false} TableCallsCount(x0: int, y0: int, rowH: int, widths: seq<int>, header: seq<string>,
                                           rows: seq<seq<string>>, k: nat)
    requires |header| <= |widths| && k <= |rows| && FitsWidths(rows, widths)
    ensures |TableCalls(x0, y0, rowH, widths, header, rows, k)| == |header| + CellCount(rows[..k])
  {
    if k > 0 {
      TableCallsCount(x0, y0, rowH, widths, header, rows, k - 1);
      assert rows[..k][..k - 1] == rows[..k - 1];
    } else {
      assert rows[..k] == [];
    }
  }

  /** The table opens with the header cells, unclipped, left to right at `y0`. */
  lemma {:induction false} TableCallsHeader(x0: int, y0: int, rowH: int, widths: seq<int>, header: seq<string>,
                                            rows: seq<seq<string>>, k: nat, i: nat)
    requires |header| <= |widths| && k <= |rows| && FitsWidths(rows, widths) && i < |header|
    ensures i < |TableCalls(x0, y0, rowH, widths, header, rows, k)|
    ensures TableCalls(x0, y0, rowH, widths, header, rows, k)[i] == DrawString(x0 + Sum(widths[..i]), y0, header[i])
  {
    if k > 0 {
      TableCallsHeader(x0, y0, rowH, widths, header, rows, k - 1, i);
    } else {
      LineCallsAt(x0, y0, widths, header, i);
    }
  }

  /** A body-row call: its text has at most 60 characters and it lies on one of the first `k` body rows. */
  ghost predicate BodyCall(c: DrawCall, y0: int, rowH: int, k: nat) {
    |c.text| <= 60 && OnBodyRow(c, y0, rowH, k)
  }

  /** After the header, every call lies on one of the first `k` body rows and has a text of at most 60 characters. */
  lemma {:induction false} TableCallsBody(x0: int, y0: int, rowH: int, widths: seq<int>, header: seq<string>,
                                          rows: seq<seq<string>>, k: nat)
    requires |header| <= |widths| && k <= |rows| && FitsWidths(rows, widths)
    ensures forall i :: |header| <= i < |TableCalls(x0, y0, rowH, widths, header, rows, k)| ==>
      BodyCall(TableCalls(x0, y0, rowH, widths, header, rows, k)[i], y0, rowH, k)
  {
    if k > 0 {
      var calls := TableCalls(x0, y0, rowH, widths, header, rows, k);
      var prev := TableCalls(x0, y0, rowH, widths, header, rows, k - 1);
      var texts := Clipped(rows[k - 1]);
      var line := LineCalls(x0, RowY(y0, rowH, k - 1), widths, texts);
      assert calls == prev + line;
      TableCallsBody(x0, y0, rowH, widths, header, rows, k - 1);
      forall i | |header| <= i < |calls|
        ensures BodyCall(calls[i], y0, rowH, k)
      {
        if i < |prev| {
          assert calls[i] == prev[i];
          assert BodyCall(prev[i], y0, rowH, k - 1);
          var j :| 0 <= j < k - 1 && prev[i].y == RowY(y0, rowH, j);
          assert 0 <= j < k;
        } else {
          var m := i - |prev|;
          assert calls[i] == line[m];
          LineCallsAt(x0, RowY(y0, rowH, k - 1), widths, texts, m);
          assert texts[m] == Clip(rows[k - 1][m]);
          assert calls[i].y == RowY(y0, rowH, k - 1);
        }
      }
    } else {
      assert |TableCalls(x0, y0, rowH, widths, header, rows, k)| == |header|;
    }
  }

  /** Number of cells in `rows`. */
  function CellCount(rows: seq<seq<string>>): nat {
    if rows == [] then 0 else CellCount(rows[..|rows| - 1]) + |rows[|rows| - 1]|
  }

  /** Call `i` of a line draws text `i` at its height, `x0` plus the widths of the columns before it. */
  lemma {:induction false} LineCallsAt(x0: int, y: int, widths: seq<int>, texts: seq<string>, i: nat)
    requires |texts| <= |widths| && i < |texts|
    ensures LineCalls(x0, y, widths, texts)[i] == DrawString(x0 + Sum(widths[..i]), y, texts[i])
    decreases |texts|
  {
    var last := |texts| - 1;
    if i < last {
      LineCallsAt(x0, y, widths, texts[..last], i);
    }
  }
}
