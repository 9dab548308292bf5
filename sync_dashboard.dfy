/**
  `fmt_eta` of sync_dashboard.py: a remaining-time estimate in whole seconds shown as
  `1h 05m`, `3m 07s` or `42s`, or as an em dash when there is none.
 */
module SyncDashboard {
  import opened Wrappers
  import opened Text

  /** The em dash shown for an unknown time. */
  const Dash: string := "\U{2014}"

  /** Hours, minutes and seconds of a duration. */
  datatype Clock = Clock(h: nat, m: nat, sec: nat)

  /** `h = s // 3600`, `m = (s % 3600) // 60`, `sec = s % 60`. */
  function ClockOf(s: nat): (c: Clock)
    ensures c.h * 3600 + c.m * 60 + c.sec == s && c.m < 60 && c.sec < 60
  {
    Clock(s / 3600, (s % 3600) / 60, s % 60)
  }

  /** `f"{n:02d}"` for `n < 100`. */
  function Pad2(n: nat): string
    requires n < 100
  {
    if n < 10 then "0" + NatToString(n) else NatToString(n)
  }

  /** `fmt_eta(seconds)` for an integer number of seconds. */
  function FmtEta(seconds: Option<int>): (r: string)
    ensures r != []
  {
    if seconds.None? || seconds.value < 0 then Dash
    else
      var c := ClockOf(seconds.value);
      if c.h > 0 then NatToString(c.h) + "h " + Pad2(c.m) + "m"
      else if c.m > 0 then NatToString(c.m) + "m " + Pad2(c.sec) + "s"
      else NatToString(c.sec) + "s"
  }

  /** Two digits that read back as `n`. */
  lemma Pad2Reads(n: nat)
    requires n < 100
    ensures |Pad2(n)| == 2 && AllDigits(Pad2(n)) && DigitsValue(Pad2(n)) == n
  {
    NatToStringLength(n);
    DigitsValueOfNatToString(n);
    if n < 10 {
      var p := Pad2(n);
      assert p[..1] == "0";
    }
  }

  /** The dash appears exactly for a missing or negative estimate. */
  lemma FmtEtaDashIff(seconds: Option<int>)
    ensures FmtEta(seconds) == Dash <==> seconds.None? || seconds.value < 0
  {
    if seconds.Some? && seconds.value >= 0 {
      var r := FmtEta(seconds);
      assert r[|r| - 1] == 'm' || r[|r| - 1] == 's';
    }
  }

  /** From an hour on, the text reads back as hours and minutes, dropping the seconds. */
  lemma FmtEtaHours(s: nat)
    requires s >= 3600
    ensures exists hs: string, ms: string ::
      FmtEta(Some(s)) == hs + "h " + ms + "m" && AllDigits(hs) && AllDigits(ms) && |ms| == 2
      && 3600 * DigitsValue(hs) + 60 * DigitsValue(ms) <= s < 3600 * DigitsValue(hs) + 60 * DigitsValue(ms) + 60
  {
    var c := ClockOf(s);
    DigitsValueOfNatToString(c.h);
    Pad2Reads(c.m);
    var hs, ms := NatToString(c.h), Pad2(c.m);
    assert FmtEta(Some(s)) == hs + "h " + ms + "m";
  }

  /** Between a minute and an hour, the text reads back as minutes and seconds, exactly. */
  lemma FmtEtaMinutes(s: nat)
    requires 60 <= s < 3600
    ensures exists ms: string, ss: string ::
      FmtEta(Some(s)) == ms + "m " + ss + "s" && AllDigits(ms) && AllDigits(ss) && |ss| == 2
      && 60 * DigitsValue(ms) + DigitsValue(ss) == s
  {
    var c := ClockOf(s);
    DigitsValueOfNatToString(c.m);
    Pad2Reads(c.sec);
    var ms, ss := NatToString(c.m), Pad2(c.sec);
    assert FmtEta(Some(s)) == ms + "m " + ss + "s";
  }

  /** Under a minute, the text is the number of seconds. */
  lemma FmtEtaSeconds(s: nat)
    requires s < 60
    ensures exists ss: string :: FmtEta(Some(s)) == ss + "s" && AllDigits(ss) && DigitsValue(ss) == s
  {
    DigitsValueOfNatToString(s);
    assert FmtEta(Some(s)) == NatToString(s) + "s";
  }
}
