/**
  Accent removal and the swimmer key of swimstats/normalize.py: `strip_accents`
  (compatibility decomposition followed by dropping the combining marks) and `norm_key`,
  the stable key under which result rows are stored.
 */
module Normalize {
  import opened Text

  // ---------------------------------------------------------------------------
  // Decomposition
  // ---------------------------------------------------------------------------

  /**
    `unicodedata.combining(c) != 0`: the combining diacritical marks U+0300..U+036F, all of
    which have a non-zero combining class except the grapheme joiner U+034F.
   */
  predicate IsCombining(c: char) {
    '\U{300}' <= c <= '\U{36F}' && c != '\U{34F}'
  }

  /** The Latin-1 supplement, the only block `Decompose` has entries for. */
  predicate IsLatin1Supplement(c: char) { '\U{A0}' <= c <= '\U{FF}' }

  function Accented(base: char, mark: char): string { [base, mark] }

  /**
    The NFKD decomposition of one character, written out for Latin-1. Letters with an
    accent become the base letter and a combining mark; the compatibility characters
    become their plain forms (the no-break space a space, `ª` an `a`, `½` the digits with
    a fraction slash). Every other character is its own decomposition.
   */
  function Decompose(c: char): string {
    if IsLatin1Supplement(c) then DecomposeLatin1(c) else [c]
  }

  /** The part of the table for U+00A0..U+00FF. */
  function DecomposeLatin1(c: char): (d: string)
    requires IsLatin1Supplement(c)
    ensures d == [c] || forall i :: 0 <= i < |d| ==> !IsLatin1Supplement(d[i])
  {
    match c
    case '\U{A0}' => " "
    case '\U{A8}' => [' ', '\U{308}']
    case '\U{AA}' => "a"
    case '\U{AF}' => [' ', '\U{304}']
    case '\U{B2}' => "2"
    case '\U{B3}' => "3"
    case '\U{B4}' => [' ', '\U{301}']
    case '\U{B5}' => ['\U{3BC}']
    case '\U{B8}' => [' ', '\U{327}']
    case '\U{B9}' => "1"
    case '\U{BA}' => "o"
    case '\U{BC}' => ['1', '\U{2044}', '4']
    case '\U{BD}' => ['1', '\U{2044}', '2']
    case '\U{BE}' => ['3', '\U{2044}', '4']
    case '\U{C0}' => Accented('A', '\U{300}')
    case '\U{C1}' => Accented('A', '\U{301}')
    case '\U{C2}' => Accented('A', '\U{302}')
    case '\U{C3}' => Accented('A', '\U{303}')
    case '\U{C4}' => Accented('A', '\U{308}')
    case '\U{C5}' => Accented('A', '\U{30A}')
    case '\U{C7}' => Accented('C', '\U{327}')
    case '\U{C8}' => Accented('E', '\U{300}')
    case '\U{C9}' => Accented('E', '\U{301}')
    case '\U{CA}' => Accented('E', '\U{302}')
    case '\U{CB}' => Accented('E', '\U{308}')
    case '\U{CC}' => Accented('I', '\U{300}')
    case '\U{CD}' => Accented('I', '\U{301}')
    case '\U{CE}' => Accented('I', '\U{302}')
    case '\U{CF}' => Accented('I', '\U{308}')
    case '\U{D1}' => Accented('N', '\U{303}')
    case '\U{D2}' => Accented('O', '\U{300}')
    case '\U{D3}' => Accented('O', '\U{301}')
    case '\U{D4}' => Accented('O', '\U{302}')
    case '\U{D5}' => Accented('O', '\U{303}')
    case '\U{D6}' => Accented('O', '\U{308}')
    case '\U{D9}' => Accented('U', '\U{300}')
    case '\U{DA}' => Accented('U', '\U{301}')
    case '\U{DB}' => Accented('U', '\U{302}')
    case '\U{DC}' => Accented('U', '\U{308}')
    case '\U{DD}' => Accented('Y', '\U{301}')
    case '\U{E0}' => Accented('a', '\U{300}')
    case '\U{E1}' => Accented('a', '\U{301}')
    case '\U{E2}' => Accented('a', '\U{302}')
    case '\U{E3}' => Accented('a', '\U{303}')
    case '\U{E4}' => Accented('a', '\U{308}')
    case '\U{E5}' => Accented('a', '\U{30A}')
    case '\U{E7}' => Accented('c', '\U{327}')
    case '\U{E8}' => Accented('e', '\U{300}')
    case '\U{E9}' => Accented('e', '\U{301}')
    case '\U{EA}' => Accented('e', '\U{302}')
    case '\U{EB}' => Accented('e', '\U{308}')
    case '\U{EC}' => Accented('i', '\U{300}')
    case '\U{ED}' => Accented('i', '\U{301}')
    case '\U{EE}' => Accented('i', '\U{302}')
    case '\U{EF}' => Accented('i', '\U{308}')
    case '\U{F1}' => Accented('n', '\U{303}')
    case '\U{F2}' => Accented('o', '\U{300}')
    case '\U{F3}' => Accented('o', '\U{301}')
    case '\U{F4}' => Accented('o', '\U{302}')
    case '\U{F5}' => Accented('o', '\U{303}')
    case '\U{F6}' => Accented('o', '\U{308}')
    case '\U{F9}' => Accented('u', '\U{300}')
    case '\U{FA}' => Accented('u', '\U{301}')
    case '\U{FB}' => Accented('u', '\U{302}')
    case '\U{FC}' => Accented('u', '\U{308}')
    case '\U{FD}' => Accented('y', '\U{301}')
    case '\U{FF}' => Accented('y', '\U{308}')
    case _ => [c]
  }

  /** A character that decomposes to nothing but itself. */
  predicate IsDecomposed(c: char) { Decompose(c) == [c] }

  /** No character still has a decomposition and no combining mark is left. */
  predicate IsAccentFree(s: string) {
    forall i :: 0 <= i < |s| ==> IsDecomposed(s[i]) && !IsCombining(s[i])
  }

  /** The decomposition of `c` without its combining marks. */
  function DropMarks(d: string): (r: string)
    ensures forall i :: 0 <= i < |r| ==> r[i] in d && !IsCombining(r[i])
    ensures (forall i :: 0 <= i < |d| ==> !IsCombining(d[i])) ==> r == d
  {
    if d == [] then []
    else if IsCombining(d[0]) then DropMarks(d[1..])
    else [d[0]] + DropMarks(d[1..])
  }

  lemma OutsideTableIsDecomposed(c: char)
    requires !IsLatin1Supplement(c)
    ensures IsDecomposed(c)
  {
  }

  /** Every character a decomposition produces is its own decomposition. */
  lemma DecomposeIsFinal(c: char)
    ensures forall i :: 0 <= i < |Decompose(c)| ==> IsDecomposed(Decompose(c)[i])
  {
    var d := Decompose(c);
    if d != [c] {
      forall i | 0 <= i < |d| ensures IsDecomposed(d[i]) {
        OutsideTableIsDecomposed(d[i]);
      }
    }
  }

  /** `strip_accents(s)`: NFKD, then drop the combining marks. */
  function StripAccents(s: string): (r: string)
    ensures IsAccentFree(r)
  {
    if s == [] then []
    else
      var head := DropMarks(Decompose(s[0]));
      DecomposeIsFinal(s[0]);
      head + StripAccents(s[1..])
  }

  lemma {:induction false} StripAccentsAppend(a: string, b: string)
    ensures StripAccents(a + b) == StripAccents(a) + StripAccents(b)
  {
    if a == [] {
      assert a + b == b;
    } else {
      assert (a + b)[0] == a[0] && (a + b)[1..] == a[1..] + b;
      StripAccentsAppend(a[1..], b);
    }
  }

  /** Text without accents or decomposable characters passes through `strip_accents` unchanged. */
  lemma {:induction false} StripAccentsOfAccentFree(s: string)
    requires IsAccentFree(s)
    ensures StripAccents(s) == s
  {
    if s != [] {
      assert IsAccentFree(s[1..]) by {
        forall i | 0 <= i < |s[1..]| ensures IsDecomposed(s[1..][i]) && !IsCombining(s[1..][i]) {
          assert s[1..][i] == s[i + 1];
        }
      }
      StripAccentsOfAccentFree(s[1..]);
      assert DropMarks([s[0]]) == [s[0]];
    }
  }

  /** ASCII text has no accents. */
  lemma AsciiIsAccentFree(s: string)
    requires forall i :: 0 <= i < |s| ==> s[i] < '\U{80}'
    ensures IsAccentFree(s)
  {
    forall i | 0 <= i < |s| ensures IsDecomposed(s[i]) {
      OutsideTableIsDecomposed(s[i]);
    }
  }

  /** `strip_accents` is idempotent. */
  lemma StripAccentsIdempotent(s: string)
    ensures StripAccents(StripAccents(s)) == StripAccents(s)
  {
    StripAccentsOfAccentFree(StripAccents(s));
  }

  // ---------------------------------------------------------------------------
  // norm_key
  // ---------------------------------------------------------------------------

  /** A member of the class `[A-Z0-9]`. */
  predicate IsKeyChar(c: char) { IsAsciiUpper(c) || IsDigit(c) }

  /** Only key characters and single spaces. */
  predicate IsKeyText(s: string) {
    (forall i :: 0 <= i < |s| ==> IsKeyChar(s[i]) || s[i] == ' ')
    && (forall i :: 0 <= i < |s| - 1 ==> !(s[i] == ' ' && s[i + 1] == ' '))
  }

  /** What `norm_key` returns: key characters separated by single spaces, none at either end. */
  predicate IsCleanKey(s: string) {
    IsKeyText(s) && (s == [] || (s[0] != ' ' && s[|s| - 1] != ' '))
  }

  /** Length of the run of characters outside `[A-Z0-9]` that starts at index `i`. */
  function NonKeyRun(s: string, i: nat): (n: nat)
    requires i <= |s|
    ensures i + n <= |s|
    ensures forall k :: i <= k < i + n ==> !IsKeyChar(s[k])
    ensures i + n == |s| || IsKeyChar(s[i + n])
    decreases |s| - i
  {
    if i < |s| && !IsKeyChar(s[i]) then 1 + NonKeyRun(s, i + 1) else 0
  }

  /** `re.sub(r"[^A-Z0-9]+", " ", s)`: every maximal run outside `[A-Z0-9]` becomes one space. */
  function SubNonKey(s: string): (r: string)
    ensures IsKeyText(r)
    ensures (r == []) == (s == [])
    ensures s != [] ==> (r[0] == ' ' <==> !IsKeyChar(s[0]))
    decreases |s|
  {
    if s == [] then []
    else if IsKeyChar(s[0]) then [s[0]] + SubNonKey(s[1..])
    else [' '] + SubNonKey(s[NonKeyRun(s, 0)..])
  }

  /** The tail of key text is key text. */
  lemma KeyTextTail(s: string)
    requires IsKeyText(s) && s != []
    ensures IsKeyText(s[1..])
  {
    var t := s[1..];
    forall i | 0 <= i < |t| - 1 ensures !(t[i] == ' ' && t[i + 1] == ' ') {
      assert t[i] == s[i + 1] && t[i + 1] == s[i + 2];
    }
  }

  /** Key text is left alone by the substitution. */
  lemma {:induction false} SubNonKeyOfKeyText(s: string)
    requires IsKeyText(s)
    ensures SubNonKey(s) == s
    decreases |s|
  {
    if s != [] {
      KeyTextTail(s);
      SubNonKeyOfKeyText(s[1..]);
      if !IsKeyChar(s[0]) {
        assert NonKeyRun(s, 0) == 1 by {
          assert |s| > 1 ==> IsKeyChar(s[1]);
          assert NonKeyRun(s, 1) == 0;
        }
      }
      assert s == [s[0]] + s[1..];
    }
  }

  lemma KeyTextIsCollapsed(s: string)
    requires IsKeyText(s)
    ensures IsCollapsed(s)
  {
  }

  /** A slice of key text is key text. */
  lemma KeyTextSlice(s: string, lo: nat, hi: nat)
    requires IsKeyText(s) && lo <= hi <= |s|
    ensures IsKeyText(s[lo..hi])
  {
    var t := s[lo..hi];
    forall i | 0 <= i < |t| ensures IsKeyChar(t[i]) || t[i] == ' ' {
      assert t[i] == s[lo + i];
    }
    forall i | 0 <= i < |t| - 1 ensures !(t[i] == ' ' && t[i + 1] == ' ') {
      assert t[i] == s[lo + i] && t[i + 1] == s[lo + i + 1];
    }
  }

  /** Stripping key text leaves a clean key. */
  lemma StripOfKeyText(s: string)
    requires IsKeyText(s)
    ensures IsCleanKey(Strip(s))
  {
    var l := LStrip(s);
    LStripSuffix(s);
    KeyTextSlice(s, |s| - |l|, |s|);
    var r := RStrip(l);
    KeyTextSlice(l, 0, |r|);
    assert Strip(s) == r;
  }

  /** The part of `norm_key` after the accents are gone and the text is upper-cased. */
  function KeyOf(u: string): (r: string)
    ensures IsCleanKey(r)
  {
    var v := SubNonKey(u);
    KeyTextIsCollapsed(v);
    CollapsedIsFixed(v);
    StripOfKeyText(v);
    Strip(CollapseWs(v))
  }

  /**
    `norm_key(s)` (with `None` passed as ""): remove accents, upper-case, turn every run of
    characters outside `[A-Z0-9]` into a space, collapse whitespace and strip.
   */
  function NormKey(s: string): (r: string)
    ensures IsCleanKey(r)
  {
    KeyOf(Upper(StripAccents(s)))
  }

  /** A clean key is its own key. */
  lemma KeyOfCleanKey(k: string)
    requires IsCleanKey(k)
    ensures KeyOf(k) == k
  {
    SubNonKeyOfKeyText(k);
    KeyTextIsCollapsed(k);
    CollapsedIsFixed(k);
    StrippedIsFixed(k);
  }

  lemma {:induction false} UpperOfCleanKey(k: string)
    requires IsKeyText(k)
    ensures Upper(k) == k
  {
    if k != [] {
      KeyTextTail(k);
      UpperOfCleanKey(k[1..]);
      assert k == [k[0]] + k[1..];
    }
  }

  /** A clean key is a fixed point of `norm_key`. */
  lemma NormKeyOfCleanKey(k: string)
    requires IsCleanKey(k)
    ensures NormKey(k) == k
  {
    assert IsAccentFree(k);
    StripAccentsOfAccentFree(k);
    UpperOfCleanKey(k);
    KeyOfCleanKey(k);
  }

  /** `norm_key(norm_key(s)) == norm_key(s)`. */
  lemma NormKeyIdempotent(s: string)
    ensures NormKey(NormKey(s)) == NormKey(s)
  {
    NormKeyOfCleanKey(NormKey(s));
  }

  lemma NormKeyEmpty()
    ensures NormKey("") == ""
  {
  }

  /** `strip_accents` of one character: its decomposition without the marks. */
  lemma StripAccentsOne(c: char)
    ensures StripAccents([c]) == DropMarks(Decompose(c))
  {
    assert [c][1..] == [];
  }

  /** `strip_accents` works character by character around any one character. */
  lemma {:induction false} StripAccentsSplice(a: string, c: char, b: string)
    ensures StripAccents(a + [c] + b) == StripAccents(a) + StripAccents([c]) + StripAccents(b)
  {
    ConcatAssoc(a, [c], b);
    StripAccentsAppend(a, [c] + b);
    StripAccentsAppend([c], b);
  }

  /** A character outside the table that is no combining mark survives `strip_accents`. */
  lemma StripAccentsOfPlain(c: char)
    requires !IsLatin1Supplement(c) && !IsCombining(c)
    ensures StripAccents([c]) == [c]
  {
    StripAccentsOne(c);
    assert Decompose(c) == [c];
    assert [c][1..] == [];
  }

  /**
    A letter with an accent and its base letter give the same key wherever they stand, so
    "Jos\U{E9} P\U{E9}rez" and "JOSE PEREZ" are stored under one key.
   */
  lemma NormKeyIgnoresAccent(a: string, c: char, b: string)
    requires |Decompose(c)| == 2 && IsCombining(Decompose(c)[1]) && !IsCombining(Decompose(c)[0])
    ensures NormKey(a + [c] + b) == NormKey(a + [Decompose(c)[0]] + b)
  {
    var d := Decompose(c);
    var x := d[0];
    DecomposeIsFinal(c);
    assert IsDecomposed(x);
    StripAccentsOne(c);
    assert d[1..][1..] == [] && d[1..][0] == d[1];
    assert DropMarks(d) == [x] + DropMarks(d[1..]);
    assert DropMarks(d[1..]) == DropMarks(d[1..][1..]);
    assert StripAccents([c]) == [x];
    StripAccentsOne(x);
    assert [x][1..] == [];
    assert StripAccents([x]) == [x];
    StripAccentsSplice(a, c, b);
    StripAccentsSplice(a, x, b);
  }

  /** `upper` works character by character around any one character. */
  lemma UpperSplice(a: string, c: char, b: string)
    ensures Upper(a + [c] + b) == Upper(a) + Upper([c]) + Upper(b)
  {
    assert a + [c] + b == a + ([c] + b);
    UpperAppend(a, [c] + b);
    UpperAppend([c], b);
  }

  /** The key depends on the text only after accents are removed and letters upper-cased. */
  lemma NormKeyOfSplice(a: string, c: char, b: string)
    requires !IsLatin1Supplement(c) && !IsCombining(c)
    ensures NormKey(a + [c] + b) == KeyOf(Upper(StripAccents(a)) + Upper([c]) + Upper(StripAccents(b)))
  {
    StripAccentsSplice(a, c, b);
    StripAccentsOfPlain(c);
    UpperSplice(StripAccents(a), c, StripAccents(b));
  }

  /** An ASCII lower-case letter and its capital upper-case to the same text. */
  lemma UpperOfAsciiLetter(c: char)
    requires IsAsciiLower(c)
    ensures Upper([c]) == Upper([(c as int - 32) as char]) == [(c as int - 32) as char]
  {
    var x := (c as int - 32) as char;
    assert [c][1..] == [] && [x][1..] == [];
    assert UpperOf(c) == [x];
    assert UpperOf(x) == [x];
  }

  /** Upper and lower case give the same key. */
  lemma NormKeyIgnoresCase(a: string, c: char, b: string)
    requires IsAsciiLower(c)
    ensures NormKey(a + [c] + b) == NormKey(a + [(c as int - 32) as char] + b)
  {
    var x := (c as int - 32) as char;
    NormKeyOfSplice(a, c, b);
    NormKeyOfSplice(a, x, b);
    UpperOfAsciiLetter(c);
  }

  // ---------------------------------------------------------------------------
  // normalize_name (swimstats/parse_v2.py)
  // ---------------------------------------------------------------------------

  /**
    `normalize_name(s)`: strip, remove accents, collapse whitespace. The strip comes first,
    so whitespace that the decomposition produces at either end (a spacing accent such as
    `´` decomposes to a space and a mark), or that a leading or trailing combining mark
    was hiding, is kept as one space.
   */
  function NormalizeName(s: string): (r: string)
    ensures IsCollapsed(r) && (r == [] <==> StripAccents(Strip(s)) == [])
  {
    CollapseWs(StripAccents(Strip(s)))
  }

  /**
    A normalized name has its whitespace collapsed and no combining marks, and it is
    stripped exactly when the accent-free text it was made from is.
   */
  lemma NormalizeNameClean(s: string)
    ensures IsCollapsed(NormalizeName(s))
    ensures forall i :: 0 <= i < |NormalizeName(s)| ==> !IsCombining(NormalizeName(s)[i])
    ensures IsStripped(NormalizeName(s)) <==> IsStripped(StripAccents(Strip(s)))
  {
    CollapseWsKeeps(StripAccents(Strip(s)), c => !IsCombining(c));
  }

  /** A combining mark in front of accent-free text disappears. */
  lemma StripAccentsDropsLeadingMark(m: char, u: string)
    requires IsCombining(m) && IsAccentFree(u)
    ensures StripAccents([m] + u) == u
  {
    StripAccentsAppend([m], u);
    StripAccentsOne(m);
    assert Decompose(m) == [m];
    assert [m][1..] == [];
    StripAccentsOfAccentFree(u);
  }

  /**
    A combining mark before a space survives the strip, and removing it leaves the space
    in front: `normalize_name("\u0301 Ana")` is " Ana".
   */
  lemma NormalizeNameKeepsLeadingSpace(s: string)
    requires s == "\U{301} Ana"
    ensures NormalizeName(s) == " Ana"
  {
    MarkFirstIsStripped(s);
    MarkFirstLosesMark(s);
    SpaceFirstIsCollapsed(" Ana");
  }

  /** The mark is no whitespace, so the strip leaves the text as it is. */
  lemma MarkFirstIsStripped(s: string)
    requires s == "\U{301} Ana"
    ensures Strip(s) == s
  {
    assert IsStripped(s);
    StrippedIsFixed(s);
  }

  /** Removing the accents drops the mark and nothing else. */
  lemma MarkFirstLosesMark(s: string)
    requires s == "\U{301} Ana"
    ensures StripAccents(s) == " Ana"
  {
    var u := " Ana";
    assert s == ['\U{301}'] + u;
    AsciiIsAccentFree(u);
    StripAccentsDropsLeadingMark('\U{301}', u);
  }

  /** One leading space is already collapsed. */
  lemma SpaceFirstIsCollapsed(u: string)
    requires u == " Ana"
    ensures CollapseWs(u) == u
  {
    assert IsCollapsed(u);
    CollapsedIsFixed(u);
  }
}
