/**
 * The Pomodoro generator (generate_clock_pomodoro.py): work intervals
 * separated by short and long breaks, written as chime-file lines
 * `HH:MM - name - N min` that hourlychime-cli.js reads back. A time of day is
 * a number of minutes since midnight of the start day; `%H:%M` wraps it to
 * the day as `strftime` does for a later `datetime`.
 */
module Pomodoro {
  import opened Wrappers
  import opened Text
  import opened Clock
  import ChimeSchedule

  // ---------------------------------------------------------------------------
  // format_entry
  // ---------------------------------------------------------------------------

  /** ` - N min`, Python's `str` of the duration between the dash and the unit. */
  function DurationTail(minutes: int): string {
    " - " + IntToString(minutes) + " min"
  }

  /** What follows `HH:MM - `: the name, then the duration suffix when the duration is given and not zero. */
  function EntryLabel(name: string, duration: Option<int>): string {
    if duration.Some? && duration.value != 0 then name + DurationTail(duration.value) else name
  }

  /**
   * `format_entry(dt, name, duration_min)`: the time of day as `HH:MM`,
   * then ` - ` and the label; a missing or zero duration (falsy in Python)
   * leaves the duration out.
   */
  function FormatEntry(minutes: int, name: string, duration: Option<int>): (r: string)
    ensures |r| >= 5 && ClockPrefix(r) == Some(minutes % MinutesPerDay) && r[..5] == FormatClock(minutes)
    ensures r[5..] == " - " + EntryLabel(name, duration)
    ensures duration.None? || duration == Some(0) ==> r[5..] == " - " + name
  {
    var clock := FormatClock(minutes);
    var rest := " - " + EntryLabel(name, duration);
    ClockPrefixOfPrefix(clock, rest);
    assert (clock + rest)[5..] == rest;
    clock + rest
  }

  // ---------------------------------------------------------------------------
  // build_pomodoro
  // ---------------------------------------------------------------------------

  /** The generator's inputs: start time, cycle count, the three lengths in minutes, and the long-break period. */
  datatype Params = Params(start: int, cycles: int, work: int, shortBreak: int, longBreak: int, longEvery: int)

  /** `i % long_every` with `long_every == 0` raises `ZeroDivisionError`. */
  datatype PomodoroError = LongEveryZero

  /** How many lines `cycles` cycles give: a work line per cycle and a break between consecutive ones. */
  function EntryCount(cycles: int): nat {
    if cycles >= 1 then 2 * cycles - 1 else 0
  }

  /**
   * The break after cycle `i`: long when `i` is a multiple of the period.
   * (Python's `%` and Dafny's differ for a negative period, but both are zero
   * exactly on the multiples.)
   */
  function BreakAfter(p: Params, i: int): int
    requires p.longEvery != 0
  {
    if i % p.longEvery == 0 then p.longBreak else p.shortBreak
  }

  /** Line `j`'s name: even lines are `Work 1`, `Work 2`, ..., odd lines are `Break`. */
  function NameAt(j: nat): string {
    if j % 2 == 0 then "Work " + IntToString(j / 2 + 1) else "Break"
  }

  /** Line `j`'s length: the work length on even lines, the break after cycle `(j + 1) / 2` on odd ones. */
  function MinutesAt(p: Params, j: nat): int
    requires p.longEvery != 0 || j % 2 == 0
  {
    if j % 2 == 0 then p.work else BreakAfter(p, j / 2 + 1)
  }

  /** Line `j`'s start: the start time, plus the lengths of all lines before it. */
  function StartAt(p: Params, j: nat): int
    requires p.longEvery != 0 || j <= 1
  {
    if j == 0 then p.start else StartAt(p, j - 1) + MinutesAt(p, j - 1)
  }

  /** One generated line before formatting: its start, its name and its length. */
  datatype PlanEntry = PlanEntry(start: int, name: string, minutes: int)

  /** Line `j` of the schedule. */
  function EntryAt(p: Params, j: nat): PlanEntry
    requires p.longEvery != 0 || j == 0
  {
    PlanEntry(StartAt(p, j), NameAt(j), MinutesAt(p, j))
  }

  /** Line `j = 2(i - 1)` is cycle `i`'s work line, and the next line starts a work length later. */
  lemma WorkLine(p: Params, i: int, j: nat)
    requires 1 <= i && j == 2 * (i - 1) && (p.longEvery != 0 || i == 1)
    ensures EntryAt(p, j) == PlanEntry(StartAt(p, j), "Work " + IntToString(i), p.work)
    ensures StartAt(p, j + 1) == StartAt(p, j) + p.work
  {
    assert j % 2 == 0 && j / 2 + 1 == i;
    assert NameAt(j) == "Work " + IntToString(i);
    assert MinutesAt(p, j) == p.work;
  }

  /** Line `j = 2i - 1` is the break after cycle `i`, and the next line starts that break's length later. */
  lemma BreakLine(p: Params, i: int, j: nat)
    requires 1 <= i && j == 2 * i - 1 && p.longEvery != 0
    ensures EntryAt(p, j) == PlanEntry(StartAt(p, j), "Break", BreakAfter(p, i))
    ensures StartAt(p, j + 1) == StartAt(p, j) + BreakAfter(p, i)
  {
    assert j % 2 == 1 && j / 2 + 1 == i;
    assert NameAt(j) == "Break";
    assert MinutesAt(p, j) == BreakAfter(p, i);
  }

  /** The entries so far are the schedule's first lines. */
  predicate PlanPrefix(p: Params, entries: seq<PlanEntry>) {
    && (p.longEvery != 0 || |entries| <= 1)
    && forall j :: 0 <= j < |entries| ==> entries[j] == EntryAt(p, j)
  }

  lemma ExtendPlan(p: Params, entries: seq<PlanEntry>, e: PlanEntry)
    requires PlanPrefix(p, entries) && (p.longEvery != 0 || |entries| == 0)
    requires e == EntryAt(p, |entries|)
    ensures PlanPrefix(p, entries + [e])
  {
    var r := entries + [e];
    forall j | 0 <= j < |r| ensures r[j] == EntryAt(p, j) {
      if j < |entries| {
        assert r[j] == entries[j];
      }
    }
  }

  /** Appending cycle `i`'s work line at the next start extends the schedule by its line `2(i - 1)`. */
  lemma WorkStep(p: Params, i: int, plan: seq<PlanEntry>, now: int)
    requires 1 <= i && (p.longEvery != 0 || i == 1)
    requires |plan| == 2 * (i - 1) && PlanPrefix(p, plan) && now == StartAt(p, |plan|)
    ensures var next := plan + [PlanEntry(now, "Work " + IntToString(i), p.work)];
            |next| == 2 * i - 1 && PlanPrefix(p, next) && StartAt(p, |next|) == now + p.work
  {
    var e := PlanEntry(now, "Work " + IntToString(i), p.work);
    assert StartAt(p, |plan| + 1) == now + p.work by {
      WorkLine(p, i, |plan|);
    }
    assert PlanPrefix(p, plan + [e]) by {
      WorkLine(p, i, |plan|);
      ExtendPlan(p, plan, e);
    }
  }

  /** Appending the break after cycle `i` at the next start extends the schedule by its line `2i - 1`. */
  lemma BreakStep(p: Params, i: int, plan: seq<PlanEntry>, now: int)
    requires 1 <= i && p.longEvery != 0
    requires |plan| == 2 * i - 1 && PlanPrefix(p, plan) && now == StartAt(p, |plan|)
    ensures var next := plan + [PlanEntry(now, "Break", BreakAfter(p, i))];
            |next| == 2 * i && PlanPrefix(p, next) && StartAt(p, |next|) == now + BreakAfter(p, i)
  {
    BreakLine(p, i, |plan|);
    ExtendPlan(p, plan, PlanEntry(now, "Break", BreakAfter(p, i)));
  }

  /**
   * One pass of the `build_pomodoro` loop: cycle `i`'s work line, then,
   * unless it is the last cycle, the break after it (short, or long when `i`
   * is a multiple of the period). Returns the lines so far and the next start.
   */
  method AddCycle(p: Params, i: int, plan: seq<PlanEntry>, now: int) returns (r: Result<(seq<PlanEntry>, int), PomodoroError>)
    requires 1 <= i <= p.cycles && (p.longEvery != 0 || i == 1)
    requires |plan| == 2 * (i - 1) && PlanPrefix(p, plan) && now == StartAt(p, |plan|)
    ensures r.Err? <==> i < p.cycles && p.longEvery == 0
    ensures r.Ok? ==> var next := r.value.0;
              && |next| == (if i < p.cycles then 2 * i else 2 * i - 1)
              && PlanPrefix(p, next)
              && (p.longEvery != 0 || |next| <= 1)
              && r.value.1 == StartAt(p, |next|)
  {
    WorkStep(p, i, plan, now);
    var next := plan + [PlanEntry(now, "Work " + IntToString(i), p.work)];
    var after := now + p.work;
    if i < p.cycles {
      if p.longEvery == 0 {
        return Err(LongEveryZero);
      }
      BreakStep(p, i, next, after);
      return Ok((next + [PlanEntry(after, "Break", BreakAfter(p, i))], after + BreakAfter(p, i)));
    }
    return Ok((next, after));
  }

  /**
   * The loop of `build_pomodoro` before formatting: the work and break lines
   * in order, each starting where the one before it ends. A zero long-break
   * period fails as soon as a break is due, that is with two cycles or more.
   */
  method BuildPlan(p: Params) returns (r: Result<seq<PlanEntry>, PomodoroError>)
    ensures r.Err? <==> p.cycles >= 2 && p.longEvery == 0
    ensures r.Ok? ==> |r.value| == EntryCount(p.cycles) && PlanPrefix(p, r.value)
  {
    var plan: seq<PlanEntry> := [];
    var now := p.start;
    var i := 1;
    while i <= p.cycles
      invariant 1 <= i
      invariant p.longEvery == 0 ==> i == 1 || p.cycles <= 1
      invariant i <= p.cycles ==> |plan| == 2 * (i - 1)
      invariant i > p.cycles ==> |plan| == EntryCount(p.cycles)
      invariant PlanPrefix(p, plan)
      invariant (p.longEvery != 0 || |plan| <= 1) && now == StartAt(p, |plan|)
      decreases p.cycles - i
    {
      var step := AddCycle(p, i, plan, now);
      if step.Err? {
        return Err(step.error);
      }
      plan, now := step.value.0, step.value.1;
      i := i + 1;
    }
    return Ok(plan);
  }

  /** Each entry written with `format_entry`, its length passed as the duration. */
  function FormatPlan(entries: seq<PlanEntry>): (r: seq<string>)
    ensures |r| == |entries|
    ensures forall j :: 0 <= j < |entries| ==>
              r[j] == FormatEntry(entries[j].start, entries[j].name, Some(entries[j].minutes))
  {
    seq(|entries|, j requires 0 <= j < |entries| => FormatEntry(entries[j].start, entries[j].name, Some(entries[j].minutes)))
  }

  /** `build_pomodoro`: the plan, formatted line by line. */
  method BuildPomodoro(p: Params) returns (r: Result<seq<string>, PomodoroError>)
    ensures r.Err? <==> p.cycles >= 2 && p.longEvery == 0
    ensures r.Ok? ==> exists plan :: |plan| == EntryCount(p.cycles) && PlanPrefix(p, plan) && r.value == FormatPlan(plan)
  {
    var plan := BuildPlan(p);
    match plan
    case Err(e) => return Err(e);
    case Ok(entries) => return Ok(FormatPlan(entries));
  }

  // ---------------------------------------------------------------------------
  // get_default_start_time
  // ---------------------------------------------------------------------------

  /**
   * The suggested start: the current hour at `:00` before half past, at
   * `:30` from half past on. Read back, it is the latest half hour not after
   * now.
   */
  function DefaultStartTime(now: int): (r: string)
    ensures |r| == 5 && ClockPrefix(r).Some? && AllDigits(r[..2]) && AllDigits(r[3..])
    ensures DigitsValue(r[..2]) < 24 && DigitsValue(r[3..]) < 60
    ensures var t := ClockPrefix(r).value;
            t % 30 == 0 && t <= MinuteOfDay(now) < t + 30
  {
    var t := HalfHourStart(now);
    assert t % MinutesPerDay == t;
    FormatClock(t)
  }

  /** The minute of the day at which the half hour holding `now` began. */
  function HalfHourStart(now: int): (t: int)
    ensures 0 <= t < MinutesPerDay && t % 30 == 0
    ensures t <= MinuteOfDay(now) < t + 30
  {
    HourAndMinute(now);
    var h := HourOf(now);
    var k := if MinuteOf(now) < 30 then 0 else 1;
    assert h * 60 + k * 30 == 30 * (2 * h + k);
    h * 60 + k * 30
  }

  // ---------------------------------------------------------------------------
  // Reading the generated lines back (hourlychime-cli.js `parseChimeConfig`)
  // ---------------------------------------------------------------------------

  /** A name the chime parser gives back unchanged: non-empty, one line, no white space at either end. */
  predicate PlainName(name: string) {
    name != [] && SingleLine(name) && !IsSpace(name[0]) && !IsSpace(name[|name| - 1])
  }

  /** A string not ending in white space is its own `TrimEnd`, also after one more space. */
  lemma TrimEndSpace(x: string)
    requires x != [] && !IsSpace(x[|x| - 1])
    ensures TrimEnd(x) == x
    ensures TrimEnd(x + " ") == x
  {
    assert (x + " ")[..|x|] == x;
  }

  /** The line pattern's label group of ` - words` is all of `words`. */
  lemma LabelGroupOfEntry(words: string)
    requires words != [] && SingleLine(words) && !IsSpace(words[0])
    ensures ChimeSchedule.LabelGroup(" - " + words) == Some(Some(words))
  {
    var afterSpace := "- " + words;
    assert " - " + words == " " + afterSpace;
    TrimStartOneSpace(afterSpace);
    assert afterSpace[1..] == " " + words;
    TrimStartOneSpace(words);
  }

  /** The numeral `Python str` writes for a positive count. */
  lemma PositiveNumeral(d: int)
    requires d > 0
    ensures IntToString(d) == NatToString(d)
    ensures var t := IntToString(d); t != [] && AllDigits(t) && SingleLine(t) && DigitsValue(t) == d
  {
    var t := IntToString(d);
    forall i | 0 <= i < |t| ensures !IsLineTerminator(t[i]) {
      assert IsDigit(t[i]);
    }
  }

  /** A string ending in `min` carries the three-letter minute unit. */
  lemma MinuteUnit(s: string)
    requires |s| >= 3 && s[|s| - 3..] == "min"
    ensures ChimeSchedule.UnitSuffix(s) == Some((3, false))
  {
    assert s[|s| - 1] == 'n' && s[|s| - 2] == 'i' && s[|s| - 3] == 'm';
    assert s[..|s| - 0] == s;
    assert ChimeSchedule.EndsWithWord(s, "min");
  }

  /** The dash right before the digits, and the name right before the dash. */
  lemma NameBeforeDashOfEntry(name: string, minutes: int)
    requires PlainName(name)
    ensures ChimeSchedule.NameBeforeDash(name + " - ", minutes) == Some((name, minutes))
  {
    var spaced := name + " ";
    assert name + " - " == spaced + "-" + " ";
    assert AllSpace(" ") by {
      assert IsSpace(" "[0]);
    }
    ChimeSchedule.DashThenName(spaced, " ", minutes);
    TrimEndSpace(name);
  }

  /** `name - digits ` (the line without its unit) gives back the name and the digits' value. */
  lemma NumberOfEntry(name: string, digits: string)
    requires PlainName(name) && digits != [] && AllDigits(digits)
    ensures ChimeSchedule.NumberBeforeUnit((name + " - ") + digits + " ", false) == Some((name, DigitsValue(digits)))
  {
    var numbered := (name + " - ") + digits;
    assert numbered[|numbered| - 1] == digits[|digits| - 1];
    TrimEndSpace(numbered);
    ChimeSchedule.TrailingDigitsAfter(name + " - ", digits);
    assert numbered[..|numbered| - |digits|] == name + " - ";
    NameBeforeDashOfEntry(name, DigitsValue(digits));
  }

  /** The duration suffix of `name - N min` is `N` minutes, with the name before it. */
  lemma DurationSuffixOfEntry(name: string, d: int)
    requires PlainName(name) && d > 0
    ensures ChimeSchedule.DurationSuffix(name + DurationTail(d)) == Some((name, d))
  {
    var digits := IntToString(d);
    PositiveNumeral(d);
    var s := name + DurationTail(d);
    var t := (name + " - ") + digits + " ";
    assert s == t + "min";
    MinuteUnit(s);
    assert s[..|s| - 3] == t;
    NumberOfEntry(name, digits);
  }

  /** Every line of ` - N min` text is on one line when the name is. */
  lemma EntryLabelSingleLine(name: string, d: int)
    requires PlainName(name) && d > 0
    ensures var l := EntryLabel(name, Some(d)); l != [] && SingleLine(l) && !IsSpace(l[0]) && l[|l| - 1] == 'n'
  {
    PositiveNumeral(d);
    SingleLineConcat(" - ", IntToString(d));
    SingleLineConcat(" - " + IntToString(d), " min");
    SingleLineConcat(name, DurationTail(d));
    assert EntryLabel(name, Some(d))[0] == name[0];
  }

  /** A trimmed line with a clock prefix and a label group parses to the entry of that label. */
  lemma ParseStages(raw: string, index: nat, words: string)
    requires Trim(raw) == raw && HasClockPrefix(raw)
    requires ChimeSchedule.LabelGroup(raw[5..]) == Some(Some(words))
    ensures ChimeSchedule.ParseChimeLine(raw, index) == Some(ChimeSchedule.LabeledEntry(raw, Some(words), index))
  {
  }

  /** A non-empty label whose suffix gives a trimmed name keeps that name and the suffix's minutes. */
  lemma LabeledStages(raw: string, index: nat, words: string, name: string, d: int)
    requires HasClockPrefix(raw) && words != []
    requires ChimeSchedule.NameAndDuration(words) == (name, d)
    requires name != [] && Trim(name) == name
    ensures ChimeSchedule.LabeledEntry(raw, Some(words), index)
            == ChimeSchedule.Entry(raw[..5], name, ClockPrefix(raw).value * MsPerMinute, d, index)
  {
  }

  /** A line starting with a digit and ending in `n` has nothing for `trim` to remove. */
  lemma TrimmedLine(raw: string)
    requires raw != [] && IsDigit(raw[0]) && raw[|raw| - 1] == 'n'
    ensures Trim(raw) == raw
  {
    TrimOfTrimmed(raw);
  }

  /** A line `HH:MM - name - N min` reads back as its clock prefix, the name and `N`. */
  lemma LineReadsBack(raw: string, name: string, d: int, index: nat)
    requires PlainName(name) && d > 0
    requires HasClockPrefix(raw) && raw[5..] == " - " + EntryLabel(name, Some(d))
    ensures ChimeSchedule.ParseChimeLine(raw, index)
            == Some(ChimeSchedule.Entry(raw[..5], name, ClockPrefix(raw).value * MsPerMinute, d, index))
  {
    var words := EntryLabel(name, Some(d));
    EntryLabelSingleLine(name, d);
    assert raw[|raw| - 1] == words[|words| - 1];
    TrimmedLine(raw);
    LabelGroupOfEntry(words);
    DurationSuffixOfEntry(name, d);
    TrimOfTrimmed(name);
    assert ChimeSchedule.NameAndDuration(words) == (name, d);
    ParseStages(raw, index, words);
    LabeledStages(raw, index, words, name, d);
  }

  /**
   * A line `format_entry` writes with a positive duration reads back through
   * the chime parser as that time of day, that name and that many minutes.
   */
  lemma EntryReadsBack(m: int, name: string, d: int, index: nat)
    requires PlainName(name) && d > 0
    ensures ChimeSchedule.ParseChimeLine(FormatEntry(m, name, Some(d)), index)
            == Some(ChimeSchedule.Entry(FormatClock(m), name, (m % MinutesPerDay) * MsPerMinute, d, index))
  {
    LineReadsBack(FormatEntry(m, name, Some(d)), name, d, index);
  }

  /** `Work N` and `Break` are plain names. */
  lemma PlanNamesPlain(j: nat)
    ensures PlainName(NameAt(j))
  {
    if j % 2 == 0 {
      var n := j / 2 + 1;
      PositiveNumeral(n);
      SingleLineConcat("Work ", IntToString(n));
      var name := "Work " + IntToString(n);
      assert name[|name| - 1] == IntToString(n)[|IntToString(n)| - 1];
      assert IsDigit(name[|name| - 1]);
    }
  }

  /** The lengths the generator uses are all positive, so every line carries its duration. */
  predicate PositiveLengths(p: Params) {
    p.work > 0 && p.shortBreak > 0 && p.longBreak > 0
  }

  /**
   * Every line of a generated plan reads back through the chime parser as
   * the line's start (wrapped to the day), its name and its length.
   */
  lemma PlanReadsBack(p: Params, entries: seq<PlanEntry>, j: nat)
    requires PlanPrefix(p, entries) && PositiveLengths(p) && j < |entries|
    ensures ChimeSchedule.ParseChimeLine(FormatPlan(entries)[j], j)
            == Some(ChimeSchedule.Entry(FormatClock(StartAt(p, j)), NameAt(j),
                                        (StartAt(p, j) % MinutesPerDay) * MsPerMinute, MinutesAt(p, j), j))
  {
    var e := entries[j];
    assert e == EntryAt(p, j);
    PlanNamesPlain(j);
    assert MinutesAt(p, j) > 0;
    EntryReadsBack(e.start, e.name, e.minutes, j);
  }
}
