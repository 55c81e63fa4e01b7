/**
 * The countdown both apps draw: `formatCountdown` in hourlychime-cli.js and
 * the same digital/bar logic inline in taskchime-cli.js's `updateUI`. Digital
 * mode shows `MM:SS` under an hour and `HH:MM` from an hour up; bar mode shows
 * the part of the current hour still to go as 20 blocks, plus ` +Nh` for the
 * whole hours beyond it. Colours are not modelled, only which of the four
 * styles applies.
 */
module Countdown {
  import opened Wrappers
  import opened Text
  import opened Clock

  const SecondsPerHour := 3600
  const BarBlocks := 20

  /** `Math.round(ms / 1000)`: the nearest whole second, halves rounding up. */
  function RoundSeconds(ms: int): (r: int)
    ensures r * MsPerSecond - 500 <= ms < r * MsPerSecond + 500
  {
    (ms + 500) / MsPerSecond
  }

  /** Negative countdowns show as zero. */
  function ClampSeconds(s: int): (r: nat)
    ensures s >= 0 ==> r == s
    ensures s < 0 ==> r == 0
  {
    if s < 0 then 0 else s
  }

  // ---------------------------------------------------------------------------
  // Digital mode
  // ---------------------------------------------------------------------------

  /** The two fields of the digital text: minutes and seconds, or hours and minutes. */
  function DigitalFields(s: nat): (r: (nat, nat))
    ensures r.1 < 60
    ensures r.0 * 60 + r.1 == (if s < SecondsPerHour then s else s / 60)
    ensures s < 100 * SecondsPerHour ==> r.0 < 100
  {
    if s >= SecondsPerHour then
      var m := s / 60;
      assert s / SecondsPerHour == m / 60 && (s % SecondsPerHour) / 60 == m % 60 by {
        var h := m / 60;
        assert s == SecondsPerHour * h + (60 * (m % 60) + s % 60);
      }
      (s / SecondsPerHour, (s % SecondsPerHour) / 60)
    else
      (s / 60, s % 60)
  }

  /** `a:b` with both fields padded to two digits. */
  function ColonText(a: nat, b: nat): (r: string)
    requires b < 60
    ensures |r| >= 5 && r[|r| - 3] == ':'
    ensures AllDigits(r[..|r| - 3]) && AllDigits(r[|r| - 2..])
    ensures DigitsValue(r[..|r| - 3]) == a && DigitsValue(r[|r| - 2..]) == b
    ensures a < 100 ==> |r| == 5 && ClockPrefix(r) == Some(a * 60 + b)
    ensures |r| > 5 ==> r[0] != '0'
  {
    var x, y := Pad2(a), Pad2(b);
    var r := x + ":" + y;
    assert r[..|r| - 3] == x && r[|r| - 2..] == y;
    assert a < 100 ==> ClockPrefix(r) == Some(a * 60 + b) by {
      if a < 100 {
        ClockPrefixOfFields(x, y);
      }
    }
    r
  }

  /**
   * `MM:SS` below an hour, `HH:MM` from an hour up. Reading the two fields
   * back as `a * 60 + b` gives the seconds below an hour and the whole
   * minutes from an hour up; the text is five characters below 100 hours.
   */
  function DigitalText(s: nat): (r: string)
    ensures |r| >= 5 && r[|r| - 3] == ':'
    ensures AllDigits(r[..|r| - 3]) && AllDigits(r[|r| - 2..])
    ensures DigitsValue(r[..|r| - 3]) * 60 + DigitsValue(r[|r| - 2..]) ==
              (if s < SecondsPerHour then s else s / 60)
    ensures DigitsValue(r[|r| - 2..]) < 60
    ensures |r| > 5 ==> r[0] != '0'
    ensures s < 100 * SecondsPerHour ==> |r| == 5 && ClockPrefix(r) == Some(if s < SecondsPerHour then s else s / 60)
  {
    var fields := DigitalFields(s);
    ColonText(fields.0, fields.1)
  }

  // ---------------------------------------------------------------------------
  // Bar mode
  // ---------------------------------------------------------------------------

  /** The four bar styles: three or more hours left, two, one, under one. */
  datatype Tier = Dim | Gray | White | Yellow

  /** A bar: filled and empty blocks, the whole hours shown as ` +Nh`, and the style. */
  datatype Bar = Bar(filled: nat, empty: nat, hours: nat, tier: Tier)

  /** The seconds the bar shows: those left in the current hour, a full hour at a positive exact hour. */
  function ShownSeconds(s: nat): (r: nat)
    ensures r <= SecondsPerHour
    ensures s == 0 ==> r == 0
    ensures s > 0 ==> r > 0
    ensures r % SecondsPerHour == s % SecondsPerHour
  {
    var rem := s % SecondsPerHour;
    if s > 0 && rem == 0 then SecondsPerHour else rem
  }

  function TierOf(hours: nat): Tier {
    if hours >= 3 then Dim else if hours >= 2 then Gray else if hours >= 1 then White else Yellow
  }

  /**
   * The bar for `s` seconds left: the blocks always number 20, the filled
   * ones are the shown seconds rounded to the nearest 180-second block, and
   * the hour count is the whole hours left.
   */
  function ProgressBar(s: nat): (r: Bar)
    ensures r.filled + r.empty == BarBlocks
    ensures ShownSeconds(s) - 90 < r.filled * 180 <= ShownSeconds(s) + 90
    ensures r.hours == s / SecondsPerHour && r.tier == TierOf(r.hours)
    ensures s == 0 ==> r.filled == 0 && r.hours == 0
    ensures s > 0 && s % SecondsPerHour == 0 ==> r.filled == BarBlocks
  {
    var shown := ShownSeconds(s);
    var filled := (shown + 90) / 180;
    Bar(filled, BarBlocks - filled, s / SecondsPerHour, TierOf(s / SecondsPerHour))
  }

  /** One hour left draws a full bar and ` +1h`, which reads like two hours. */
  lemma OneHourShowsFullBarPlusOne()
    ensures ProgressBar(SecondsPerHour) == Bar(BarBlocks, 0, 1, White)
  {
  }

  function Repeat(c: char, n: nat): (r: string)
    ensures |r| == n && forall i :: 0 <= i < n ==> r[i] == c
  {
    seq(n, _ => c)
  }

  /** `█`/`▓` on a Unicode terminal, `=`/`-` otherwise. */
  function FilledChar(unicode: bool): char { if unicode then '█' else '=' }
  function EmptyChar(unicode: bool): char { if unicode then '▓' else '-' }

  /** The hour suffix ` +Nh`, present only when whole hours are left. */
  function HoursSuffix(hours: nat): string {
    if hours > 0 then " +" + NatToString(hours) + "h" else ""
  }

  /** The bar's text: the filled blocks, then the empty ones, then the hour suffix. */
  function RenderBar(b: Bar, unicode: bool): (r: string)
    requires b.filled + b.empty == BarBlocks
    ensures |r| >= BarBlocks
    ensures forall i :: 0 <= i < b.filled ==> r[i] == FilledChar(unicode)
    ensures forall i :: b.filled <= i < BarBlocks ==> r[i] == EmptyChar(unicode)
    ensures r[BarBlocks..] == HoursSuffix(b.hours)
  {
    Repeat(FilledChar(unicode), b.filled) + Repeat(EmptyChar(unicode), b.empty) + HoursSuffix(b.hours)
  }

  /** The countdown text for a whole, non-negative number of seconds. */
  function CountdownText(s: nat, digital: bool, unicode: bool): (r: string)
    ensures digital ==> r == DigitalText(s)
    ensures !digital ==> r == RenderBar(ProgressBar(s), unicode)
  {
    if digital then DigitalText(s) else RenderBar(ProgressBar(s), unicode)
  }

  /**
   * `formatCountdown(ms / 1000)`: the countdown of the whole second nearest
   * to `ms` milliseconds (halves rounding up); anything under half a second,
   * negative countdowns included, shows as zero.
   */
  function FormatCountdown(ms: int, digital: bool, unicode: bool): (r: string)
    ensures ms < 500 ==> r == CountdownText(0, digital, unicode)
    ensures forall s: nat :: s * MsPerSecond - 500 <= ms < s * MsPerSecond + 500 ==>
              r == CountdownText(s, digital, unicode)
  {
    assert forall s: nat :: s * MsPerSecond - 500 <= ms < s * MsPerSecond + 500 ==> s == RoundSeconds(ms) by {
      forall s: nat | s * MsPerSecond - 500 <= ms < s * MsPerSecond + 500 ensures s == RoundSeconds(ms) {
        RoundUnique(ms, s);
      }
    }
    CountdownText(ClampSeconds(RoundSeconds(ms)), digital, unicode)
  }

  /** Only one whole second lies within half a second of `ms`. */
  lemma RoundUnique(ms: int, s: int)
    requires s * MsPerSecond - 500 <= ms < s * MsPerSecond + 500
    ensures s == RoundSeconds(ms)
  {
    var r := RoundSeconds(ms);
    assert (s - r) * MsPerSecond < 1000 && (r - s) * MsPerSecond < 1000;
  }

  /** A number below 100 padded to two digits is its tens digit and its units digit. */
  lemma Pad2Digits(n: nat)
    requires n < 100
    ensures Pad2(n) == [DigitChar(n / 10), DigitChar(n % 10)]
  {
    if n >= 10 {
      assert NatToString(n / 10) == [DigitChar(n / 10)];
    }
  }

  /** Zero seconds read `00:00`. */
  lemma DigitalZero()
    ensures DigitalText(0) == "00:00"
  {
    assert DigitalFields(0) == (0, 0);
    Pad2Digits(0);
  }

  /** One hour reads `01:00`. */
  lemma DigitalOneHour()
    ensures DigitalText(SecondsPerHour) == "01:00"
  {
    assert DigitalFields(SecondsPerHour) == (1, 0);
    Pad2Digits(0);
    Pad2Digits(1);
  }

  /** One second short of an hour reads `59:59`. */
  lemma DigitalLastSecond()
    ensures DigitalText(SecondsPerHour - 1) == "59:59"
  {
    assert DigitalFields(SecondsPerHour - 1) == (59, 59);
    Pad2Digits(59);
  }

  /** The countdown when there is nothing to count down to. */
  function Placeholder(digital: bool, unicode: bool): (r: string)
    ensures |r| == 5
    ensures digital ==> r == "--:--"
    ensures !digital ==> forall i :: 0 <= i < 5 ==> r[i] == (if unicode then '■' else '=')
  {
    if digital then "--:--" else Repeat(if unicode then '■' else '=', 5)
  }
}
