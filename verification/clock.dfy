/**
 * Wall-clock arithmetic. An instant is an integer number of milliseconds since
 * local midnight of the current day (negative before it, past 86 400 000 on
 * the next day); daylight-saving jumps are not modelled.
 */
module Clock {
  import opened Wrappers
  import opened Text

  const MsPerSecond := 1000
  const MsPerMinute := 60000
  const MsPerHour := 3600000
  const MinutesPerDay := 1440

  /** A whole number of minutes is a whole number of minutes in milliseconds. */
  lemma WholeMinutes(m: int)
    ensures (m * MsPerMinute) % MsPerMinute == 0
  {
  }

  /** `date.getHours()`. */
  function HourOf(ms: int): int {
    (ms / MsPerHour) % 24
  }

  /** `date.getMinutes()`. */
  function MinuteOf(ms: int): int {
    (ms / MsPerMinute) % 60
  }

  /** `date.getHours() * 60 + date.getMinutes()`, the minute of the local day. */
  function MinuteOfDay(ms: int): int {
    (ms / MsPerMinute) % MinutesPerDay
  }

  /** `Math.min` and `Math.max` on whole numbers, as the calendars clip their hours. */
  function Min(a: int, b: int): int { if a <= b then a else b }
  function Max(a: int, b: int): int { if a >= b then a else b }

  /** The hour and minute read off an instant are the two halves of its minute of the day. */
  lemma HourAndMinute(ms: int)
    ensures 0 <= HourOf(ms) < 24 && 0 <= MinuteOf(ms) < 60
    ensures HourOf(ms) * 60 + MinuteOf(ms) == MinuteOfDay(ms)
  {
    var m := ms / MsPerMinute;
    var q := m / 60;
    var s := m % 60;
    assert m == 60 * q + s;
    assert ms == MsPerHour * q + (MsPerMinute * s + ms % MsPerMinute);
    assert 0 <= MsPerMinute * s + ms % MsPerMinute < MsPerHour;
    assert ms / MsPerHour == q;
    var a := q / 24;
    var b := q % 24;
    assert m == MinutesPerDay * a + (60 * b + s);
    assert 0 <= 60 * b + s < MinutesPerDay;
    assert m % MinutesPerDay == 60 * b + s;
  }

  /** The text has the shape `^\d{2}:\d{2}` at its start. */
  predicate HasClockPrefix(s: string) {
    |s| >= 5 && IsDigit(s[0]) && IsDigit(s[1]) && s[2] == ':' && IsDigit(s[3]) && IsDigit(s[4])
  }

  /**
   * The leading `HH:MM` of a line, as `HH * 60 + MM` minutes (both fields may
   * run past 23 and 59; `setHours` rolls them over into later minutes).
   */
  function ClockPrefix(s: string): (r: Option<int>)
    ensures r.Some? <==> HasClockPrefix(s)
    ensures r.Some? ==> 0 <= r.value <= 99 * 60 + 99
  {
    if HasClockPrefix(s) then
      TwoDigitsValue(s[0..2]);
      TwoDigitsValue(s[3..5]);
      Some(DigitsValue(s[0..2]) * 60 + DigitsValue(s[3..5]))
    else
      None
  }

  /** Two two-digit fields around a colon read back as `HH * 60 + MM`. */
  lemma ClockPrefixOfFields(h: string, m: string)
    requires |h| == 2 && |m| == 2 && AllDigits(h) && AllDigits(m)
    ensures ClockPrefix(h + ":" + m) == Some(DigitsValue(h) * 60 + DigitsValue(m))
  {
    var r := h + ":" + m;
    assert r[0..2] == h && r[3..5] == m;
    assert IsDigit(r[0]) && IsDigit(r[1]) && IsDigit(r[3]) && IsDigit(r[4]);
  }

  /**
   * `formatTime(date)`: zero-padded `HH:MM` of `getHours()` and
   * `getMinutes()`; reading it back gives the instant's minute of the day.
   */
  function FormatTime(ms: int): (r: string)
    ensures |r| == 5 && AllDigits(r[..2]) && r[2] == ':' && AllDigits(r[3..])
    ensures DigitsValue(r[..2]) == HourOf(ms) < 24 && DigitsValue(r[3..]) == MinuteOf(ms) < 60
    ensures ClockPrefix(r) == Some(MinuteOfDay(ms))
  {
    HourAndMinute(ms);
    var h := Pad2(HourOf(ms));
    var m := Pad2(MinuteOf(ms));
    var r := h + ":" + m;
    assert r[0..2] == h && r[3..5] == m;
    assert r[..2] == h && r[3..] == m;
    r
  }

  /** `HH:MM` of a minute count, wrapped to the day (Python `strftime("%H:%M")` of a shifted time). */
  function FormatClock(minutes: int): (r: string)
    ensures |r| == 5 && AllDigits(r[..2]) && r[2] == ':' && AllDigits(r[3..])
    ensures DigitsValue(r[..2]) < 24 && DigitsValue(r[3..]) < 60
    ensures DigitsValue(r[..2]) * 60 + DigitsValue(r[3..]) == minutes % MinutesPerDay
    ensures ClockPrefix(r) == Some(minutes % MinutesPerDay)
  {
    assert MinuteOfDay(minutes * MsPerMinute) == minutes % MinutesPerDay;
    HourAndMinute(minutes * MsPerMinute);
    FormatTime(minutes * MsPerMinute)
  }

  /** Only the first five characters decide the clock prefix. */
  lemma ClockPrefixOfPrefix(a: string, b: string)
    requires |a| >= 5
    ensures ClockPrefix(a + b) == ClockPrefix(a)
  {
    var s := a + b;
    assert s[0..2] == a[0..2] && s[3..5] == a[3..5];
    assert forall i :: 0 <= i < 5 ==> s[i] == a[i];
  }

  /** The minute of the day of a whole-minute instant is the minute count wrapped to the day. */
  lemma MinuteOfDayOfMinutes(minutes: int)
    ensures MinuteOfDay(minutes * MsPerMinute) == minutes % MinutesPerDay
  {
  }
}
