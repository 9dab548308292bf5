/**
  Event titles (`swimstats/events.py`): the stroke vocabulary, the event pattern
  `\b(\d{2,4})\s*(?:m\b|M\b)?\s*(<stroke>)\b` searched case-insensitively, the
  display name "<dist>m <Stroke>" and the category text left around the match.
 */
module Events {
  import opened Wrappers
  import opened Text

  // ---------------------------------------------------------------------------
  // Stroke vocabulary
  // ---------------------------------------------------------------------------

  /** The canonical stroke keys, in table order. */
  const StrokeKeys: seq<string> := ["LIBRE", "ESPALDA", "BRAZA", "MARIPOSA", "ESTILOS"]

  /** Every (canonical stroke, surface variant) pair of the stroke table, in table order. */
  const Variants: seq<(string, string)> := [
    ("LIBRE", "LIBRE"), ("LIBRE", "LIBRES"), ("LIBRE", "CROL"), ("LIBRE", "CRAWL"),
    ("LIBRE", "FREE"), ("LIBRE", "FREESTYLE"),
    ("ESPALDA", "ESPALDA"), ("ESPALDA", "BACK"), ("ESPALDA", "BACKSTROKE"),
    ("BRAZA", "BRAZA"), ("BRAZA", "BRASA"), ("BRAZA", "BREAST"), ("BRAZA", "BREASTSTROKE"),
    ("MARIPOSA", "MARIPOSA"), ("MARIPOSA", "FLY"), ("MARIPOSA", "BUTTERFLY"),
    ("ESTILOS", "ESTILOS"), ("ESTILOS", "MEDLEY"), ("ESTILOS", "IM")
  ]

  /**
    The stroke alternatives of the event pattern: the set of variants, longest first.
    Two different alternatives of one length never match at the same place, so the
    order among equal lengths does not matter.
   */
  const StrokeTokens: seq<string> := [
    "BREASTSTROKE", "BACKSTROKE", "BUTTERFLY", "FREESTYLE", "MARIPOSA", "ESPALDA", "ESTILOS",
    "LIBRES", "BREAST", "MEDLEY", "LIBRE", "CRAWL", "BRAZA", "BRASA", "FREE", "CROL", "BACK",
    "FLY", "IM"
  ]

  predicate AllAsciiUpper(s: string) { forall k :: 0 <= k < |s| ==> IsAsciiUpper(s[k]) }

  /** Variants and canonical keys are upper-case ASCII words; each key is one of `StrokeKeys`. */
  lemma VariantsWellFormed()
    ensures forall i :: 0 <= i < |Variants| ==> Variants[i].0 in StrokeKeys
    ensures forall i :: 0 <= i < |Variants| ==> |Variants[i].1| > 0 && AllAsciiUpper(Variants[i].1)
  {
  }

  /** No variant belongs to two strokes: the variant strings are pairwise distinct. */
  lemma VariantsDistinct()
    ensures forall i, j :: 0 <= i < j < |Variants| ==> Variants[i].1 != Variants[j].1
  {
  }

  /** Every variant is one of the pattern's alternatives. */
  lemma VariantsAreTokens()
    ensures forall i :: 0 <= i < |Variants| ==> Variants[i].1 in StrokeTokens
  {
  }

  /** Every alternative of the pattern is a variant, so the alternatives are exactly the variants. */
  lemma TokensAreVariants()
    ensures forall t :: t in StrokeTokens ==> exists i :: 0 <= i < |Variants| && Variants[i].1 == t
  {
    forall t | t in StrokeTokens ensures exists i :: 0 <= i < |Variants| && Variants[i].1 == t {
      var k :| 0 <= k < |StrokeTokens| && StrokeTokens[k] == t;
      TokenVariant(k);
    }
  }

  /** Alternative `k` of the pattern is variant `TokenSource[k]` of the table. */
  lemma TokenVariant(k: nat)
    requires k < |StrokeTokens|
    ensures TokenSource[k] < |Variants| && Variants[TokenSource[k]].1 == StrokeTokens[k]
  {
  }

  /** Where each alternative of the pattern sits in the stroke table. */
  const TokenSource: seq<nat> := [12, 8, 15, 5, 13, 6, 16, 1, 11, 17, 0, 3, 9, 10, 4, 2, 7, 14, 18]

  /** The alternatives are sorted by non-increasing length, so longer words are tried first. */
  lemma TokensLongestFirst()
    ensures forall k, l :: 0 <= k < l < |StrokeTokens| ==> |StrokeTokens[k]| >= |StrokeTokens[l]|
  {
  }

  /** Every alternative has at least two letters. */
  lemma TokensNonEmpty()
    ensures forall t :: t in StrokeTokens ==> |t| >= 2
  {
  }

  /** Position of the first pair of `vs` whose variant is `t`. */
  function IndexOfVariant(t: string, vs: seq<(string, string)>): (i: nat)
    requires exists j :: 0 <= j < |vs| && vs[j].1 == t
    ensures i < |vs| && vs[i].1 == t
  {
    if vs[0].1 == t then 0
    else
      assert exists j :: 0 <= j < |vs[1..]| && vs[1..][j].1 == t by {
        var j :| 0 <= j < |vs| && vs[j].1 == t;
        assert vs[1..][j - 1] == vs[j];
      }
      1 + IndexOfVariant(t, vs[1..])
  }

  /** Index of `t` among the variants. */
  function VariantIndex(t: string): (i: nat)
    requires t in StrokeTokens
    ensures i < |Variants| && Variants[i].1 == t
  {
    TokensAreVariants();
    IndexOfVariant(t, Variants)
  }

  /** Upper-casing an upper-case ASCII word changes nothing. */
  lemma {:induction false} UpperOfAsciiUpper(s: string)
    requires AllAsciiUpper(s)
    ensures Upper(s) == s
  {
    if s != [] {
      UpperOfAsciiUpper(s[1..]);
      assert s == [s[0]] + s[1..];
    }
  }

  /** A word equal to an upper-case ASCII word ignoring case upper-cases to it. */
  lemma {:induction false} UpperOfFolded(x: string, w: string)
    requires |x| == |w| && AllAsciiUpper(w)
    requires forall k :: 0 <= k < |w| ==> SameLetterIgnoringCase(x[k], w[k])
    ensures Upper(x) == w
  {
    if w != [] {
      assert SameLetterIgnoringCase(x[0], w[0]);
      assert UpperOf(x[0]) == [w[0]];
      assert forall k :: 0 <= k < |w[1..]| ==> x[1..][k] == x[k + 1] && w[1..][k] == w[k + 1];
      UpperOfFolded(x[1..], w[1..]);
      assert w == [w[0]] + w[1..];
    }
  }

  /** A slice that matches an upper-case ASCII word ignoring case upper-cases to that word. */
  lemma UpperOfFoldedMatch(s: string, p: nat, w: string)
    requires MatchesIgnoringCaseAt(s, p, w) && AllAsciiUpper(w)
    ensures Upper(s[p..p + |w|]) == w
    ensures IsStripped(s[p..p + |w|])
  {
    var x := s[p..p + |w|];
    forall k | 0 <= k < |w| ensures SameLetterIgnoringCase(x[k], w[k]) {
      assert x[k] == s[p + k];
    }
    UpperOfFolded(x, w);
    if w != [] {
      assert SameLetterIgnoringCase(x[0], w[0]) && SameLetterIgnoringCase(x[|w| - 1], w[|w| - 1]);
    }
  }

  /** The first pair of `vs` whose upper-cased variant equals `t`: `for canon, v in _VARIANTS: if t == v.upper()`. */
  function FirstKey(t: string, vs: seq<(string, string)>): Option<string> {
    if vs == [] then None
    else if t == Upper(vs[0].1) then Some(vs[0].0)
    else FirstKey(t, vs[1..])
  }

  /** `FirstKey` finds a pair exactly when one exists, and then returns the key of the first one. */
  lemma {:induction false} FirstKeySpec(t: string, vs: seq<(string, string)>)
    ensures FirstKey(t, vs).Some? <==> exists i :: 0 <= i < |vs| && Upper(vs[i].1) == t
    ensures FirstKey(t, vs).Some? ==>
      exists i :: 0 <= i < |vs| && Upper(vs[i].1) == t && vs[i].0 == FirstKey(t, vs).value
        && (forall j :: 0 <= j < i ==> Upper(vs[j].1) != t)
  {
    if vs != [] && t != Upper(vs[0].1) {
      FirstKeySpec(t, vs[1..]);
      assert forall i :: 1 <= i < |vs| ==> vs[i] == vs[1..][i - 1];
      if FirstKey(t, vs).Some? {
        var i :| 0 <= i < |vs[1..]| && Upper(vs[1..][i].1) == t && vs[1..][i].0 == FirstKey(t, vs).value
          && (forall j :: 0 <= j < i ==> Upper(vs[1..][j].1) != t);
        assert Upper(vs[i + 1].1) == t && vs[i + 1].0 == FirstKey(t, vs).value;
        assert forall j :: 0 <= j < i + 1 ==> Upper(vs[j].1) != t;
      }
    }
  }

  /** `_canonical_stroke`: the canonical key of a stroke token, or `None` for an unknown word. */
  function CanonicalStroke(token: string): (r: Option<string>)
    ensures r.Some? ==> r.value in StrokeKeys
  {
    VariantsWellFormed();
    FirstKeySpec(Upper(Strip(token)), Variants);
    FirstKey(Upper(Strip(token)), Variants)
  }

  /**
    A token has a canonical key exactly when its stripped, upper-cased text is a listed
    variant; the key is the one that variant is listed under, and it is a stroke key.
   */
  lemma CanonicalStrokeSpec(token: string)
    ensures CanonicalStroke(token).Some? <==> exists i :: 0 <= i < |Variants| && Variants[i].1 == Upper(Strip(token))
    ensures CanonicalStroke(token).Some? ==>
      exists i :: 0 <= i < |Variants| && Variants[i] == (CanonicalStroke(token).value, Upper(Strip(token)))
    ensures CanonicalStroke(token).Some? ==> CanonicalStroke(token).value in StrokeKeys
  {
    VariantsWellFormed();
    VariantsAreUpper();
    FirstKeySpec(Upper(Strip(token)), Variants);
  }

  lemma VariantsAreUpper()
    ensures forall i :: 0 <= i < |Variants| ==> Upper(Variants[i].1) == Variants[i].1
  {
    VariantsWellFormed();
    forall i | 0 <= i < |Variants| ensures Upper(Variants[i].1) == Variants[i].1 {
      UpperOfAsciiUpper(Variants[i].1);
    }
  }

  /** A token whose stripped, upper-cased text is a variant maps to the key that variant is listed under. */
  lemma CanonicalOfKeyText(t: string, i: nat)
    requires i < |Variants| && Upper(Strip(t)) == Variants[i].1
    ensures CanonicalStroke(t) == Some(Variants[i].0)
  {
    VariantsDistinct();
    CanonicalStrokeSpec(t);
    var r := CanonicalStroke(t);
    var j :| 0 <= j < |Variants| && Variants[j] == (r.value, Upper(Strip(t)));
    assert i == j;
  }

  /** Each variant maps to the key it is listed under. */
  lemma CanonicalOfVariant(i: nat)
    requires i < |Variants|
    ensures CanonicalStroke(Variants[i].1) == Some(Variants[i].0)
  {
    VariantsAreTokens();
    TokenIsKey(Variants[i].1);
    CanonicalOfKeyText(Variants[i].1, i);
  }

  /** The name shown for a stroke: "Libre", or the key with only its first letter in upper case. */
  function DisplayName(key: string): string {
    if key == "LIBRE" then "Libre"
    else if key == [] then []
    else UpperOf(key[0]) + Lower(key[1..])
  }

  // ---------------------------------------------------------------------------
  // The event pattern
  // ---------------------------------------------------------------------------

  /** A match of the event pattern: its span, the distance read from the digits and the stroke alternative that matched. */
  datatype EventMatch = EventMatch(start: nat, dist: nat, strokeStart: nat, end: nat, token: string)

  /** What every match of the event pattern satisfies in `s`. */
  predicate IsEventMatch(s: string, m: EventMatch) {
    m.start < m.strokeStart < m.end <= |s| && m.dist < 10000
    && m.token in StrokeTokens && m.end == m.strokeStart + |m.token|
    && MatchesIgnoringCaseAt(s, m.strokeStart, m.token) && IsBoundary(s, m.end)
  }

  /** The first alternative of `toks` that matches at `p` ignoring case and is followed by a word boundary. */
  function StrokeFrom(s: string, p: nat, toks: seq<string>): (r: Option<string>)
    requires p <= |s|
    ensures r.Some? ==> r.value in toks && MatchesIgnoringCaseAt(s, p, r.value) && IsBoundary(s, p + |r.value|)
  {
    if toks == [] then None
    else if MatchesIgnoringCaseAt(s, p, toks[0]) && IsBoundary(s, p + |toks[0]|) then Some(toks[0])
    else StrokeFrom(s, p, toks[1..])
  }

  /** No alternative is found only when none of them matches at `p` and ends on a word boundary. */
  lemma {:induction false} StrokeFromNone(s: string, p: nat, toks: seq<string>)
    requires p <= |s|
    ensures StrokeFrom(s, p, toks).None? <==>
      forall t :: t in toks && MatchesIgnoringCaseAt(s, p, t) ==> !IsBoundary(s, p + |t|)
  {
    if toks != [] {
      StrokeFromNone(s, p, toks[1..]);
      assert forall t :: t in toks <==> t == toks[0] || t in toks[1..];
    }
  }

  /** The match whose digits are `s[i..i + n]` and whose stroke is tried at `q`. */
  function StrokeMatch(s: string, i: nat, n: nat, q: nat): (r: Option<EventMatch>)
    requires DigitsIn(s, i, i + n) && 2 <= n <= 4 && i + n <= q <= |s|
    ensures r.Some? ==> IsEventMatch(s, r.value) && r.value.start == i && r.value.strokeStart == q
    ensures r.Some? ==> r.value.dist == DigitsValueAt(s, i, i + n)
  {
    match StrokeFrom(s, q, StrokeTokens)
    case None => None
    case Some(t) =>
      StrokeMatchIsMatch(s, i, n, q, t);
      Some(EventMatch(i, DigitsValueAt(s, i, i + n), q, q + |t|, t))
  }

  lemma StrokeMatchIsMatch(s: string, i: nat, n: nat, q: nat, t: string)
    requires DigitsIn(s, i, i + n) && 2 <= n <= 4 && i + n <= q <= |s|
    requires t in StrokeTokens && MatchesIgnoringCaseAt(s, q, t) && IsBoundary(s, q + |t|)
    ensures IsEventMatch(s, EventMatch(i, DigitsValueAt(s, i, i + n), q, q + |t|, t))
  {
    assert t != [] by { TokensNonEmpty(); }
    DigitsBound(s[i..i + n]);
  }

  lemma {:induction false} DigitsBound(d: string)
    requires AllDigits(d) && |d| <= 4
    ensures DigitsValue(d) < 10000
  {
    var n := |d|;
    if n > 0 {
      DigitsBound(d[..n - 1]);
      assert DigitsValue(d[..n - 1]) < 1000 by {
        if n - 1 < 4 { DigitsBoundShort(d[..n - 1]); }
      }
    }
  }

  lemma {:induction false} DigitsBoundShort(d: string)
    requires AllDigits(d) && |d| <= 3
    ensures DigitsValue(d) < 1000
    ensures |d| <= 2 ==> DigitsValue(d) < 100
    ensures |d| <= 1 ==> DigitsValue(d) < 10
  {
    if |d| > 0 {
      DigitsBoundShort(d[..|d| - 1]);
    }
  }

  /**
    The match of the event pattern that starts at `i`, as backtracking finds it: the
    distance is the whole run of 2 to 4 digits after a word boundary; the unit `m` is
    taken when it stands alone as a word and a stroke follows it, otherwise the stroke
    is tried right after the spaces that follow the digits.
   */
  function EventAt(s: string, i: nat): (r: Option<EventMatch>)
    requires i <= |s|
    ensures r.Some? ==> IsEventMatch(s, r.value) && r.value.start == i
    ensures r.Some? ==> IsBoundary(s, i)
  {
    if i < |s| && IsDigit(s[i]) && IsBoundary(s, i) && 2 <= DigitRun(s, i) <= 4 then
      var n := DigitRun(s, i);
      var k := SkipSpaces(s, i + n);
      var withUnit :=
        if k < |s| && (s[k] == 'm' || s[k] == 'M') && IsBoundary(s, k + 1)
        then StrokeMatch(s, i, n, SkipSpaces(s, k + 1))
        else None;
      if withUnit.Some? then withUnit else StrokeMatch(s, i, n, k)
    else None
  }

  /** `re.search`: the leftmost match at or after `from`. */
  function EventSearchFrom(s: string, from: nat): (r: Option<EventMatch>)
    requires from <= |s|
    ensures r.Some? ==> from <= r.value.start <= |s| && EventAt(s, r.value.start) == r
    ensures forall k :: from <= k <= |s| && (r.None? || k < r.value.start) ==> EventAt(s, k).None?
    decreases |s| - from
  {
    if EventAt(s, from).Some? then EventAt(s, from)
    else if from == |s| then None
    else EventSearchFrom(s, from + 1)
  }

  function EventSearch(s: string): (r: Option<EventMatch>)
    ensures r.Some? ==> IsEventMatch(s, r.value)
  {
    EventSearchFrom(s, 0)
  }

  /** The stroke text of every match maps to the canonical key of the alternative that matched. */
  lemma CanonicalOfMatch(s: string, m: EventMatch)
    requires IsEventMatch(s, m)
    ensures CanonicalStroke(s[m.strokeStart..m.end]) == Some(Variants[VariantIndex(m.token)].0)
    ensures CanonicalStroke(s[m.strokeStart..m.end]) == CanonicalStroke(m.token)
  {
    assert s[m.strokeStart..m.end] == s[m.strokeStart..m.strokeStart + |m.token|];
    var i := VariantIndex(m.token);
    TokenIsKey(m.token);
    MatchedKey(s, m.strokeStart, m.token, i);
  }

  /** Text matching variant `i` ignoring case maps to the same key as the variant itself. */
  lemma MatchedKey(s: string, p: nat, w: string, i: nat)
    requires MatchesIgnoringCaseAt(s, p, w) && AllAsciiUpper(w) && Upper(Strip(w)) == w
    requires i < |Variants| && Variants[i].1 == w
    ensures CanonicalStroke(s[p..p + |w|]) == Some(Variants[i].0) && CanonicalStroke(w) == Some(Variants[i].0)
  {
    FoldedSliceKey(s, p, w);
    CanonicalOfKeyText(s[p..p + |w|], i);
    CanonicalOfKeyText(w, i);
  }

  /** Every alternative is an upper-case ASCII word that stripping and upper-casing leave alone. */
  lemma TokenIsKey(t: string)
    requires t in StrokeTokens
    ensures t != [] && AllAsciiUpper(t) && Upper(Strip(t)) == t
  {
    var i := VariantIndex(t);
    VariantIsKey(i);
  }

  lemma VariantIsKey(i: nat)
    requires i < |Variants|
    ensures Variants[i].1 != [] && AllAsciiUpper(Variants[i].1) && Upper(Strip(Variants[i].1)) == Variants[i].1
  {
    VariantsWellFormed();
    UpperWordIsKey(Variants[i].1);
  }

  /** An upper-case ASCII word is left alone by stripping and upper-casing. */
  lemma UpperWordIsKey(w: string)
    requires w != [] && AllAsciiUpper(w)
    ensures Upper(Strip(w)) == w
  {
    assert IsStripped(w) by { assert !IsSpace(w[0]) && !IsSpace(w[|w| - 1]); }
    StrippedIsFixed(w);
    UpperOfAsciiUpper(w);
  }

  /** A slice that matches an upper-case ASCII word ignoring case strips and upper-cases to that word. */
  lemma FoldedSliceKey(s: string, p: nat, w: string)
    requires MatchesIgnoringCaseAt(s, p, w) && AllAsciiUpper(w)
    ensures Upper(Strip(s[p..p + |w|])) == w
  {
    UpperOfFoldedMatch(s, p, w);
    StrippedIsFixed(s[p..p + |w|]);
  }

  /** `_canonical_stroke` looks only at the stripped, upper-cased token. */
  lemma SameKeySameStroke(a: string, b: string)
    requires Upper(Strip(a)) == Upper(Strip(b))
    ensures CanonicalStroke(a) == CanonicalStroke(b)
  {
  }

  // ---------------------------------------------------------------------------
  // Normalised event names
  // ---------------------------------------------------------------------------

  /** A 2-4 digit number standing alone as a word at `i` (the pattern `\b(\d{2,4})\b`). */
  predicate NumberAt(s: string, i: nat)
    requires i <= |s|
  {
    i < |s| && IsDigit(s[i]) && IsBoundary(s, i) && 2 <= DigitRun(s, i) <= 4 && IsBoundary(s, i + DigitRun(s, i))
  }

  /** The value of the leftmost stand-alone 2-4 digit number at or after `from`. */
  function FirstNumberFrom(s: string, from: nat): (r: Option<nat>)
    requires from <= |s|
    ensures r.Some? <==> exists i :: from <= i <= |s| && NumberAt(s, i)
    decreases |s| - from
  {
    if NumberAt(s, from) then Some(DigitsValueAt(s, from, from + DigitRun(s, from)))
    else if from == |s| then None
    else FirstNumberFrom(s, from + 1)
  }

  /** The result of `normalize_event_name`: display name, distance and canonical stroke. */
  datatype EventName = EventName(name: string, dist: Option<nat>, stroke: Option<string>)

  /**
    `normalize_event_name`: with a match of the event pattern the name becomes
    "<dist>m <Stroke>"; otherwise the collapsed text is kept and the distance is the
    first stand-alone 2-4 digit number, if any.
   */
  function NormalizeEventName(raw: string): (r: EventName)
    ensures r.stroke.Some? ==> r.dist.Some? && r.dist.value < 10000 && r.stroke.value in StrokeKeys
    ensures r.stroke.None? ==> r.name == CollapseWs(Strip(raw))
  {
    var s := CollapseWs(Strip(raw));
    var m := EventSearch(s);
    var stroke := if m.Some? then CanonicalStroke(s[m.value.strokeStart..m.value.end]) else None;
    if m.Some? && stroke.Some? then
      EventName(NatToString(m.value.dist) + "m " + DisplayName(stroke.value), Some(m.value.dist), stroke)
    else
      EventName(s, FirstNumberFrom(s, 0), None)
  }

  /**
    The stroke is known exactly when the pattern matches, and then the name is
    "<dist>m <Stroke>" for a stroke key and a distance below 10000; otherwise the name is
    the collapsed title, with a distance exactly when a stand-alone number occurs in it.
   */
  lemma NormalizeEventNameSpec(raw: string)
    ensures var r := NormalizeEventName(raw);
      r.stroke.Some? <==> EventSearch(CollapseWs(Strip(raw))).Some?
    ensures var r := NormalizeEventName(raw);
      r.stroke.Some? ==>
        r.stroke.value in StrokeKeys && r.dist.Some? && r.dist.value < 10000
        && r.name == NatToString(r.dist.value) + "m " + DisplayName(r.stroke.value)
    ensures var r := NormalizeEventName(raw);
      r.stroke.None? ==>
        r.name == CollapseWs(Strip(raw)) && (r.dist.Some? <==> exists i :: 0 <= i <= |r.name| && NumberAt(r.name, i))
  {
    var s := CollapseWs(Strip(raw));
    var m := EventSearch(s);
    if m.Some? {
      CanonicalOfMatch(s, m.value);
      CanonicalStrokeSpec(s[m.value.strokeStart..m.value.end]);
    }
  }

  /** With a match, the display name is built from the distance and the key of the alternative that matched. */
  lemma NormalizeOfMatch(raw: string, m: EventMatch)
    requires EventSearch(CollapseWs(Strip(raw))) == Some(m)
    ensures var key := Variants[VariantIndex(m.token)].0;
      NormalizeEventName(raw) == EventName(NatToString(m.dist) + "m " + DisplayName(key), Some(m.dist), Some(key))
  {
    CanonicalOfMatch(CollapseWs(Strip(raw)), m);
  }

  /** The result of `extract_event_and_category`: event name and the category text around it. */
  datatype EventAndCategory = EventAndCategory(event: string, category: Option<string>)

  /**
    `extract_event_and_category`: the event name is what `normalize_event_name` gives;
    the category is the rest of the title with the matched span removed, collapsed and
    stripped, and absent when nothing is left or nothing matched.
   */
  function ExtractEventAndCategory(rest: string): (r: EventAndCategory)
    ensures r.category.Some? ==> EventSearch(CollapseWs(Strip(rest))).Some?
    ensures r.category.Some? ==> r.category.value != [] && IsStripped(r.category.value) && IsCollapsed(r.category.value)
  {
    var s := CollapseWs(Strip(rest));
    var m := EventSearch(s);
    if m.None? then
      EventAndCategory(NormalizeEventName(s).name, None)
    else
      var stroke := CanonicalStroke(s[m.value.strokeStart..m.value.end]).GetOr("UNKNOWN");
      var event := NatToString(m.value.dist) + "m " + DisplayName(stroke);
      var cat := Strip(CollapseWs(Strip(s[..m.value.start] + " " + s[m.value.end..])));
      StripKeepsCollapsed(CollapseWs(Strip(s[..m.value.start] + " " + s[m.value.end..])));
      EventAndCategory(event, if cat == [] then None else Some(cat))
  }

  /**
    Both functions name the event alike: with a match the stroke is always known (the
    "UNKNOWN" fallback is never taken), and without one both keep the collapsed title.
   */
  lemma ExtractAgreesWithNormalize(rest: string)
    ensures ExtractEventAndCategory(rest).event == NormalizeEventName(rest).name
  {
    var s := CollapseWs(Strip(rest));
    var m := EventSearch(s);
    if m.None? {
      CollapsedText(rest);
    } else {
      CanonicalOfMatch(s, m.value);
    }
  }

  /** The text both functions work on is already stripped and collapsed, so doing it again changes nothing. */
  lemma CollapsedText(rest: string)
    ensures CollapseWs(Strip(CollapseWs(Strip(rest)))) == CollapseWs(Strip(rest))
  {
    var s := CollapseWs(Strip(rest));
    StrippedIsFixed(s);
    CollapsedIsFixed(s);
  }

  /**
    With a match, the category is present exactly when a non-whitespace character of the
    collapsed title lies outside the matched span, and its words (`str.split()`) are the
    words before the span followed by the words after it.
   */
  lemma ExtractCategoryWords(rest: string)
    requires EventSearch(CollapseWs(Strip(rest))).Some?
    ensures var s := CollapseWs(Strip(rest));
      var m := EventSearch(s).value;
      var r := ExtractEventAndCategory(rest);
      m.start <= m.end <= |s|
      && (r.category.Some? <==> exists i :: 0 <= i < |s| && (i < m.start || m.end <= i) && !IsSpace(s[i]))
      && (r.category.Some? ==> Words(r.category.value) == Words(s[..m.start]) + Words(s[m.end..]))
  {
    var s := CollapseWs(Strip(rest));
    var m := EventSearch(s).value;
    var before, after := s[..m.start], s[m.end..];
    var u := before + " " + after;
    var cat := Strip(CollapseWs(Strip(u)));
    WordsSpaceJoin(before, after);
    WordsStrip(u);
    WordsCollapse(Strip(u));
    WordsStrip(CollapseWs(Strip(u)));
    assert Words(cat) == Words(before) + Words(after);
    NoWordsIffAllSpace(cat);
    NoWordsIffAllSpace(before);
    NoWordsIffAllSpace(after);
    assert cat == [] <==> AllSpace(cat);
    OutsideSpan(s, m.start, m.end);
  }

  /** A non-whitespace character outside `[a, b)` is one in `s[..a]` or in `s[b..]`. */
  lemma OutsideSpan(s: string, a: nat, b: nat)
    requires a <= b <= |s|
    ensures (exists i :: 0 <= i < |s| && (i < a || b <= i) && !IsSpace(s[i]))
      <==> !AllSpace(s[..a]) || !AllSpace(s[b..])
  {
    if !AllSpace(s[..a]) {
      var i :| 0 <= i < a && !IsSpace(s[..a][i]);
      assert s[..a][i] == s[i];
    } else if !AllSpace(s[b..]) {
      var j :| 0 <= j < |s| - b && !IsSpace(s[b..][j]);
      assert s[b..][j] == s[b + j];
    } else {
      forall i | 0 <= i < |s| && (i < a || b <= i) ensures IsSpace(s[i]) {
        if i < a {
          assert s[..a][i] == s[i];
        } else {
          assert s[b..][i - b] == s[i];
        }
      }
    }
  }

  /** With no match, the category is absent and the event is the collapsed title itself. */
  lemma ExtractWithoutMatch(rest: string)
    requires EventSearch(CollapseWs(Strip(rest))).None?
    ensures ExtractEventAndCategory(rest) == EventAndCategory(CollapseWs(Strip(rest)), None)
  {
    CollapsedText(rest);
  }
}

/** A worked title: "100 m Libre" becomes "100m Libre" with distance 100 and stroke LIBRE. */
module EventsExample {
  import opened Wrappers
  import opened Text
  import opened Events

  lemma TitleIsClean(raw: string)
    requires raw == "100 m Libre"
    ensures CollapseWs(Strip(raw)) == raw
  {
    assert IsStripped(raw) && IsCollapsed(raw);
    StrippedIsFixed(raw);
    CollapsedIsFixed(raw);
  }

  lemma TitleStroke(raw: string)
    requires raw == "100 m Libre"
    ensures StrokeFrom(raw, 6, StrokeTokens) == Some("LIBRE")
  {
    assert StrokeTokens[10..] == ["LIBRE"] + StrokeTokens[11..];
    assert forall k :: 0 <= k < 10 ==> |StrokeTokens[k]| > 5;
    assert MatchesIgnoringCaseAt(raw, 6, "LIBRE");
    StrokeFromSkipsLong(raw, 6, StrokeTokens, 10);
  }

  /** Alternatives longer than what is left of the text are passed over. */
  lemma {:induction false} StrokeFromSkipsLong(s: string, p: nat, toks: seq<string>, n: nat)
    requires p <= |s| && n <= |toks|
    requires forall k :: 0 <= k < n ==> p + |toks[k]| > |s|
    ensures StrokeFrom(s, p, toks) == StrokeFrom(s, p, toks[n..])
  {
    if n > 0 {
      assert toks[1..][n - 1..] == toks[n..];
      StrokeFromSkipsLong(s, p, toks[1..], n - 1);
    }
  }

  lemma TitleMatch(raw: string)
    requires raw == "100 m Libre"
    ensures EventSearch(raw) == Some(EventMatch(0, 100, 6, 11, "LIBRE"))
  {
    assert DigitRun(raw, 0) == 3 by { DigitRunOfDigits(raw, 0, 3); }
    assert SkipSpaces(raw, 3) == 4 && SkipSpaces(raw, 5) == 6;
    assert IsBoundary(raw, 0) && IsBoundary(raw, 5);
    assert DigitsValueAt(raw, 0, 3) == 100 by {
      var d := raw[0..3];
      assert d[..2] == raw[0..2] && d[..2][..1] == raw[0..1] && d[..2][..1][..0] == [];
      assert DigitsValue(d[..1]) == 1;
      assert DigitsValue(d[..2]) == 10;
    }
    TitleStroke(raw);
  }

  lemma TitleName()
    ensures NatToString(100) + "m " + DisplayName("LIBRE") == "100m Libre"
  {
  }

  lemma NormalizeExample(raw: string)
    requires raw == "100 m Libre"
    ensures NormalizeEventName(raw) == EventName("100m Libre", Some(100), Some("LIBRE"))
  {
    var m := EventMatch(0, 100, 6, 11, "LIBRE");
    assert EventSearch(CollapseWs(Strip(raw))) == Some(m) by {
      TitleIsClean(raw);
      TitleMatch(raw);
    }
    NormalizeOfMatch(raw, m);
    TitleName();
  }
}
