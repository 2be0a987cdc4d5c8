/**
 * Rendering of a duration in milliseconds as `m:ss`, shared by the puzzle page, the admin
 * panel and the countdown, and the admin panel's reading of such a text back into seconds.
 */
module Clock {
  import opened Wrappers
  import opened Text
  import Board

  const MsPerSecond: int := 1000
  const MsPerMinute: int := 60000

  /**
   * `formatTime`: whole minutes (`Math.floor(ms / 60000)`), a colon, and the whole seconds
   * of the remainder (`Math.floor((ms % 60000) / 1000)`) padded to two characters. The
   * remainder truncates toward zero, so a negative duration has negative minutes and seconds that are zero or negative.
   */
  function FormatTime(ms: int): string {
    var minutes := ms / MsPerMinute;
    var seconds := Board.JsRem(ms, MsPerMinute) / MsPerSecond;
    IntToString(minutes) + ":" + PadStart2(IntToString(seconds))
  }

  /**
   * A non-negative duration renders as its whole minutes in decimal, a colon, and exactly
   * two decimal digits.
   */
  lemma FormatTimeShape(ms: int)
    requires ms >= 0
    ensures var a, b := NatToString(ms / MsPerMinute), PadStart2(NatToString(ms % MsPerMinute / MsPerSecond));
      && |b| == 2 && AllDigits(a) && AllDigits(b) && FormatTime(ms) == a + ":" + b
  {
    var s := ms % MsPerMinute / MsPerSecond;
    assert s < 60;
    var b := PadStart2(NatToString(s));
    assert |NatToString(s)| <= 2 by {
      if s >= 10 {
        assert s / 10 < 10;
      }
    }
    assert forall i :: 0 <= i < |b| ==> IsDigit(b[i]);
  }

  /**
   * `convertTimeToSeconds`: split at `:`, read the first two fields with `Number`, and
   * combine them as minutes and seconds. `None` stands for the `NaN` that a missing or
   * non-numeric field produces.
   */
  function ConvertTimeToSeconds(text: string): (r: Option<int>)
    ensures r.Some? ==> r.value >= 0
    ensures r.Some? <==> |Split(text, ':')| >= 2 && AllDigits(Split(text, ':')[0]) && AllDigits(Split(text, ':')[1])
  {
    ReadFields(Split(text, ':'))
  }

  /** `const [minutes, seconds] = parts.map(Number); return minutes * 60 + seconds`. */
  function ReadFields(parts: seq<string>): (r: Option<int>)
    requires |parts| >= 1
    ensures r.Some? ==> r.value >= 0
    ensures r.Some? <==> |parts| >= 2 && AllDigits(parts[0]) && AllDigits(parts[1])
  {
    var minutes := JsNumber(parts[0]);
    var seconds := if |parts| >= 2 then JsNumber(parts[1]) else None;
    if minutes.Some? && seconds.Some? then Some(minutes.value * 60 + seconds.value) else None
  }

  /** Whole seconds are whole minutes times sixty plus the seconds of the remainder. */
  lemma SecondsSplit(ms: int)
    requires ms >= 0
    ensures ms / MsPerSecond == ms / MsPerMinute * 60 + ms % MsPerMinute / MsPerSecond
  {
    var m, r := ms / 60000, ms % 60000;
    var q, p := r / 1000, r % 1000;
    assert ms == 1000 * (m * 60 + q) + p;
  }

  /** A one- or two-digit rendering padded to two characters reads back as the number. */
  lemma PaddedValue(s: nat)
    requires s < 100
    ensures AllDigits(PadStart2(NatToString(s))) && DigitsValue(PadStart2(NatToString(s))) == s
  {
    DigitsValueOfNatToString(s);
    if s < 10 {
      var b := PadStart2(NatToString(s));
      assert b == ['0', DigitChar(s)];
      assert b[..1] == "0" && b[..1][..0] == [];
    } else {
      assert s / 10 < 10;
    }
  }

  /** A digit string holds no colon. */
  lemma DigitsHaveNoColon(s: string)
    requires AllDigits(s)
    ensures ':' !in s
  {
  }

  /** Two digit fields worth `m` and `s` read as `m` minutes and `s` seconds. */
  lemma ReadTwoFields(a: string, b: string, m: nat, s: nat)
    requires AllDigits(a) && AllDigits(b) && DigitsValue(a) == m && DigitsValue(b) == s
    ensures ReadFields([a, b]) == Some(m * 60 + s)
  {
  }

  /** Digit fields worth `m` and `s` joined by a colon read back as `m * 60 + s` seconds. */
  lemma ConvertFields(a: string, b: string, m: nat, s: nat)
    requires AllDigits(a) && AllDigits(b) && DigitsValue(a) == m && DigitsValue(b) == s
    ensures ConvertTimeToSeconds(a + ":" + b) == Some(m * 60 + s)
  {
    DigitsHaveNoColon(a);
    DigitsHaveNoColon(b);
    SplitPair(a, b, ':');
    assert Split(a + ":" + b, ':') == [a, b];
    ReadTwoFields(a, b, m, s);
  }

  /**
   * For a non-negative whole number of milliseconds, reading the rendering back gives the
   * whole seconds: the milliseconds below a second are the only information lost.
   */
  lemma FormatTimeRoundTrip(ms: int)
    requires ms >= 0
    ensures ConvertTimeToSeconds(FormatTime(ms)) == Some(ms / MsPerSecond)
  {
    var m, s := ms / MsPerMinute, ms % MsPerMinute / MsPerSecond;
    FormatTimeShape(ms);
    MinutesSecondsRoundTrip(m, s);
    SecondsSplit(ms);
  }

  /** The rendered minutes and padded seconds read back as the number of seconds they denote. */
  lemma MinutesSecondsRoundTrip(m: nat, s: nat)
    requires s < 60
    ensures ConvertTimeToSeconds(NatToString(m) + ":" + PadStart2(NatToString(s))) == Some(m * 60 + s)
  {
    DigitsValueOfNatToString(m);
    PaddedValue(s);
    ConvertFields(NatToString(m), PadStart2(NatToString(s)), m, s);
  }
}
