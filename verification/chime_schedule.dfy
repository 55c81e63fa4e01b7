/**
 * The chime schedule parser (`parseChimeConfig` in hourlychime-cli.js): text
 * lines `HH:MM[ - label[ - N min|hour[s]]]` become intervals sorted by start,
 * with missing durations inferred, and the start/end alert points derived
 * from them.
 */
module ChimeSchedule {
  import opened Wrappers
  import opened Text
  import opened Clock
  import opened Sorting

  /** The label given to a line whose label is missing or empty. */
  const DefaultLabel := "Untitled Chime"

  /** Minutes given to the last interval when its duration is left unknown. */
  const DefaultLastDuration := 15

  /** One accepted line, before sorting and inference; `duration` 0 means unknown. */
  datatype Entry = Entry(time: string, task: string, date: int, duration: int, originalIndex: nat)

  /** A chime interval: `[date, endDate)` in milliseconds since local midnight. */
  datatype Interval = Interval(time: string, task: string, date: int, duration: int, endDate: int, originalIndex: nat)

  datatype AlertKind = Start | End

  /** An instant at which a chime fires, with the interval it belongs to. */
  datatype AlertPoint = AlertPoint(date: int, kind: AlertKind, interval: Interval)

  datatype Schedule = Schedule(intervals: seq<Interval>, alertPoints: seq<AlertPoint>)

  function EntryDate(e: Entry): int { e.date }
  function EntryIndex(e: Entry): int { e.originalIndex }
  function IntervalDate(iv: Interval): int { iv.date }
  function IntervalIndex(iv: Interval): int { iv.originalIndex }
  function PointDate(p: AlertPoint): int { p.date }

  // ---------------------------------------------------------------------------
  // One line
  // ---------------------------------------------------------------------------

  /**
   * The tail `\s*(?:-\s*(.*?))?$` of the line pattern, applied to what follows
   * `HH:MM`. `None`: no match; `Some(None)`: matched without a label group;
   * `Some(Some(l))`: the label group. Both `\s*` are greedy; giving white
   * space back never helps, because `-` and the end of input are not spaces
   * and `.` cannot cross a line terminator. A captured label follows white
   * space around a single dash, and there is no match exactly when the text
   * is not all white space and no such dash is followed by a single line.
   */
  function LabelGroup(rest: string): (r: Option<Option<string>>)
    ensures r == Some(None) <==> AllSpace(rest)
    ensures r.Some? && r.value.Some? ==>
              var l := r.value.value;
              && SingleLine(l) && |l| < |rest| && l == rest[|rest| - |l|..]
              && (l == [] || !IsSpace(l[0]))
              && exists k :: DashBeforeLabel(rest, k, l)
    ensures r.None? ==> forall k, j :: DashAt(rest, k, j) ==> !SingleLine(rest[j..])
  {
    var afterSpace := TrimStart(rest);
    if afterSpace == [] then
      assert AllSpace(rest) by {
        TrimStartEmpty(rest);
      }
      Some(None)
    else
      var a := |rest| - |afterSpace|;
      assert !AllSpace(rest) && !IsSpace(rest[a]) by {
        TrimStartEmpty(rest);
      }
      if afterSpace[0] != '-' then
        assert forall k, j :: !DashAt(rest, k, j) by {
          OnlyDash(rest, a);
        }
        None
      else
        LabelAfterDash(rest, a)
  }

  /** The label group once the one dash the pattern allows is found at `a`. */
  function LabelAfterDash(rest: string, a: nat): (r: Option<Option<string>>)
    requires a < |rest| && rest[a] == '-'
    requires forall i :: 0 <= i < a ==> IsSpace(rest[i])
    ensures r != Some(None)
    ensures r.Some? ==> LabelAt(rest, a, r.value.value)
    ensures r.None? ==> forall k, j :: DashAt(rest, k, j) ==> !SingleLine(rest[j..])
  {
    var group := TrimStart(rest[a + 1..]);
    GroupAfterDashIsLabel(rest, a, group);
    if SingleLine(group) then Some(Some(group)) else None
  }

  /** `l` is a label group ending the text after white space around the dash at `k`. */
  predicate LabelAt(rest: string, k: int, l: string) {
    && SingleLine(l) && |l| < |rest| && l == rest[|rest| - |l|..]
    && (l == [] || !IsSpace(l[0]))
    && DashBeforeLabel(rest, k, l)
  }

  /** What follows the white space after the dash is the label exactly when it is a single line. */
  lemma GroupAfterDashIsLabel(rest: string, a: nat, group: string)
    requires a < |rest| && rest[a] == '-'
    requires forall i :: 0 <= i < a ==> IsSpace(rest[i])
    requires group == TrimStart(rest[a + 1..])
    ensures SingleLine(group) ==> LabelAt(rest, a, group)
    ensures !SingleLine(group) ==> forall k, j :: DashAt(rest, k, j) ==> !SingleLine(rest[j..])
  {
    DashGroup(rest, a, group);
    var g := |rest| - |group|;
    if SingleLine(group) {
      assert DashBeforeLabel(rest, a, group);
    } else {
      assert !SingleLine(rest[g..]);
      LaterGroupStart(rest, a, g);
    }
  }

  /** Before position `j` there is white space around exactly one `-`, at `k`: `\s*-\s*`. */
  predicate DashAt(rest: string, k: int, j: int) {
    0 <= k < j <= |rest| && AllSpace(rest[..k]) && rest[k] == '-' && AllSpace(rest[k + 1..j])
  }

  /** `DashAt` right before the label `l` that ends the text. */
  predicate DashBeforeLabel(rest: string, k: int, l: string) {
    |l| <= |rest| && DashAt(rest, k, |rest| - |l|)
  }

  /** After leading white space ending at `a`, a dash can only sit at `a`. */
  lemma OnlyDash(rest: string, a: nat)
    requires a < |rest| && !IsSpace(rest[a])
    requires forall i :: 0 <= i < a ==> IsSpace(rest[i])
    ensures forall k, j :: DashAt(rest, k, j) ==> k == a
  {
    forall k, j | DashAt(rest, k, j) ensures k == a {
      assert !IsSpace(rest[k]);
      assert forall i :: 0 <= i < k ==> rest[..k][i] == rest[i];
    }
  }

  /** The greedy white space after the dash at `a` ends at `g`. */
  lemma GroupAfterDash(rest: string, a: nat, g: nat)
    requires a < g <= |rest| && rest[a] == '-'
    requires forall i :: 0 <= i < a ==> IsSpace(rest[i])
    requires forall i :: a + 1 <= i < g ==> IsSpace(rest[i])
    requires g < |rest| ==> !IsSpace(rest[g])
    ensures DashAt(rest, a, g)
    ensures forall j :: DashAt(rest, a, j) ==> j <= g
  {
    assert forall i :: 0 <= i < a ==> rest[..a][i] == rest[i];
    var gap := rest[a + 1..g];
    assert forall i :: 0 <= i < |gap| ==> gap[i] == rest[a + 1 + i];
    forall j | DashAt(rest, a, j) ensures j <= g {
      var tail := rest[a + 1..j];
      forall i | a + 1 <= i < j ensures IsSpace(rest[i]) {
        assert tail[i - a - 1] == rest[i];
      }
    }
  }

  /** The group after the dash at `a` starts where the white space after it ends. */
  lemma DashGroup(rest: string, a: nat, group: string)
    requires a < |rest| && rest[a] == '-'
    requires forall i :: 0 <= i < a ==> IsSpace(rest[i])
    requires group == TrimStart(rest[a + 1..])
    ensures |group| < |rest| - a && group == rest[|rest| - |group|..]
    ensures group != [] ==> !IsSpace(group[0])
    ensures DashAt(rest, a, |rest| - |group|)
    ensures forall k, j :: DashAt(rest, k, j) ==> k == a && j <= |rest| - |group|
  {
    var g := |rest| - |group|;
    assert g == |rest[a + 1..]| - |group| + a + 1;
    TrimStartFrom(rest, a + 1, group);
    DashesBefore(rest, a, g);
  }

  /** White space, the dash at `a` and white space up to `g` are the only `\s*-\s*` before `g`. */
  lemma DashesBefore(rest: string, a: nat, g: nat)
    requires a < g <= |rest| && rest[a] == '-'
    requires forall i :: 0 <= i < a ==> IsSpace(rest[i])
    requires forall i :: a + 1 <= i < g ==> IsSpace(rest[i])
    requires g < |rest| ==> !IsSpace(rest[g])
    ensures DashAt(rest, a, g)
    ensures forall k, j :: DashAt(rest, k, j) ==> k == a && j <= g
  {
    OnlyDash(rest, a);
    GroupAfterDash(rest, a, g);
  }

  /** `TrimStart` of the text from `b` on skips white space up to `|rest| - |group|`. */
  lemma TrimStartFrom(rest: string, b: nat, group: string)
    requires b <= |rest| && group == TrimStart(rest[b..])
    ensures b <= |rest| - |group| && group == rest[|rest| - |group|..]
    ensures forall i :: b <= i < |rest| - |group| ==> IsSpace(rest[i])
    ensures |group| > 0 ==> !IsSpace(rest[|rest| - |group|])
  {
    var g := |rest| - |group|;
    var after := rest[b..];
    assert group == rest[g..];
    forall i | b <= i < g ensures IsSpace(rest[i]) {
      assert after[i - b] == rest[i];
    }
  }

  /** A label group starting no later than `g` holds everything from `g` on. */
  lemma LaterGroupStart(rest: string, a: nat, g: nat)
    requires g <= |rest| && !SingleLine(rest[g..])
    requires forall k, j :: DashAt(rest, k, j) ==> k == a && j <= g
    ensures forall k, j :: DashAt(rest, k, j) ==> !SingleLine(rest[j..])
  {
    forall k, j | DashAt(rest, k, j) ensures !SingleLine(rest[j..]) {
      var m :| 0 <= m < |rest[g..]| && IsLineTerminator(rest[g..][m]);
      assert rest[j..][g - j + m] == rest[g..][m];
    }
  }

  /** `c` matches the lower-case ASCII letter `w` under the `i` flag (non-Unicode folding). */
  predicate SameLetter(c: char, w: char) {
    LowerChar(c) == w
  }

  predicate EndsWithWord(s: string, w: string) {
    |s| >= |w| && forall i :: 0 <= i < |w| ==> SameLetter(s[|s| - |w| + i], w[i])
  }

  /**
   * The unit `(min|hour)s?` at the very end: its length and whether it is
   * hours. A final `s` can only be the optional plural, because neither
   * unit ends in `s`.
   */
  function UnitSuffix(s: string): (r: Option<(nat, bool)>)
    ensures r.Some? ==> r.value.0 <= |s|
  {
    var plural := if |s| > 0 && SameLetter(s[|s| - 1], 's') then 1 else 0;
    var t := s[..|s| - plural];
    if EndsWithWord(t, "min") then Some((3 + plural, false))
    else if EndsWithWord(t, "hour") then Some((4 + plural, true))
    else None
  }

  /** The longest run of digits ending the string. */
  function TrailingDigits(s: string): (r: string)
    ensures |r| <= |s| && r == s[|s| - |r|..] && AllDigits(r)
    ensures |r| < |s| ==> !IsDigit(s[|s| - |r| - 1])
    decreases |s|
  {
    if s != [] && IsDigit(s[|s| - 1]) then
      var r := TrailingDigits(s[..|s| - 1]) + [s[|s| - 1]];
      assert r == s[|s| - |r|..];
      r
    else []
  }

  /** What follows the last line terminator (where a `.`-only match can start). */
  function AfterLastLineTerminator(s: string): (r: string)
    ensures |r| <= |s| && r == s[|s| - |r|..] && SingleLine(r)
    ensures SingleLine(s) ==> r == s
    decreases |s|
  {
    if s == [] then []
    else if IsLineTerminator(s[|s| - 1]) then []
    else
      var r := AfterLastLineTerminator(s[..|s| - 1]) + [s[|s| - 1]];
      assert r == s[|s| - |r|..];
      r
  }

  /**
   * The dash and the name before the number: `u` is the label up to the
   * digits. The dash must be the last character after any spaces; the lazy
   * `(.*?)` then stops where the spaces before the dash begin, and the
   * leftmost match starts after any line terminator.
   */
  function NameBeforeDash(u: string, minutes: int): (r: Option<(string, int)>)
    ensures r.Some? ==> r.value.1 == minutes && |r.value.0| < |u| && SingleLine(r.value.0)
  {
    var beforeNumber := TrimEnd(u);
    if beforeNumber == [] || beforeNumber[|beforeNumber| - 1] != '-' then None
    else Some((AfterLastLineTerminator(TrimEnd(beforeNumber[..|beforeNumber| - 1])), minutes))
  }

  /**
   * The rest of the duration suffix once the unit is cut off: `t` is the
   * label before the unit, and the digits right before the unit (after any
   * spaces) give the number.
   */
  function NumberBeforeUnit(t: string, isHour: bool): (r: Option<(string, int)>)
    ensures r.Some? ==> r.value.1 >= 0 && |r.value.0| < |t| && SingleLine(r.value.0)
  {
    var beforeUnit := TrimEnd(t);
    var digits := TrailingDigits(beforeUnit);
    if digits == [] then None
    else
      var value := DigitsValue(digits);
      NameBeforeDash(beforeUnit[..|beforeUnit| - |digits|], if isHour then value * 60 else value)
  }

  /**
   * The label's duration suffix `(.*?)\s*-\s*(\d+)\s*(min|hour)s?$` (flag `i`):
   * the text before it and the duration in minutes. The suffix is fixed from
   * the end of the label: the unit first, then the number and dash before it.
   */
  function DurationSuffix(s: string): (r: Option<(string, int)>)
    ensures r.Some? ==> r.value.1 >= 0 && |r.value.0| < |s| && SingleLine(r.value.0)
  {
    match UnitSuffix(s)
    case None => None
    case Some((unitLength, isHour)) => NumberBeforeUnit(s[..|s| - unitLength], isHour)
  }

  /** The label to keep: a blank label becomes the default. */
  function LabelOrDefault(s: string): (r: string)
    ensures r != [] && Trim(r) == r
    ensures Trim(s) != [] ==> r == Trim(s)
    ensures Trim(s) == [] ==> r == DefaultLabel
  {
    var t := Trim(s);
    if t == [] then
      assert Trim(DefaultLabel) == DefaultLabel by {
        DefaultLabelPlain();
      }
      DefaultLabel
    else
      assert Trim(t) == t by {
        TrimOfTrimmed(t);
      }
      t
  }

  /**
   * The name and the duration in minutes a label carries: those of its
   * duration suffix (the name trimmed), or the whole label and 0, meaning
   * unknown, when it has none.
   */
  function NameAndDuration(task: string): (r: (string, int))
    ensures r.1 >= 0
    ensures DurationSuffix(task).None? ==> r == (task, 0)
  {
    match DurationSuffix(task)
    case Some((n, d)) => (Trim(n), d)
    case None => (task, 0)
  }

  /**
   * The entry of a line that starts with `HH:MM`, from the label group the
   * line pattern captured there: a missing or empty label is the default
   * one, and the label's duration suffix, if any, gives the duration.
   */
  function LabeledEntry(line: string, group: Option<string>, index: nat): (r: Entry)
    requires HasClockPrefix(line)
    ensures r.originalIndex == index && r.time == line[..5]
    ensures r.date == ClockPrefix(line).value * MsPerMinute && r.date % MsPerMinute == 0
    ensures r.duration >= 0 && r.task != [] && Trim(r.task) == r.task
    ensures TaskFromGroup(group, r.task, r.duration)
  {
    WholeMinutes(ClockPrefix(line).value);
    TaskAndDurationCases(group);
    var taken := TaskAndDuration(group);
    Entry(line[..5], taken.0, ClockPrefix(line).value * MsPerMinute, taken.1, index)
  }

  /** The task name and duration an entry keeps from its label group. */
  function TaskAndDuration(group: Option<string>): (r: (string, int))
    ensures r.1 >= 0 && r.0 != [] && Trim(r.0) == r.0
  {
    if group.None? || group.value == [] then
      // The default label goes through the suffix pattern and the trim
      // unchanged (`DefaultLabelUnchanged`), so it is kept as it is.
      assert Trim(DefaultLabel) == DefaultLabel by {
        DefaultLabelPlain();
      }
      (DefaultLabel, 0)
    else
      var named := NameAndDuration(group.value);
      (LabelOrDefault(named.0), named.1)
  }

  /** The default label has no duration suffix and is its own label. */
  lemma DefaultLabelUnchanged()
    ensures NameAndDuration(DefaultLabel) == (DefaultLabel, 0)
    ensures LabelOrDefault(DefaultLabel) == DefaultLabel
  {
    DefaultLabelPlain();
  }

  /**
   * The task name `t` and duration `d` the label group decides: a missing or
   * empty group gives the default label and 0, a group without a duration
   * suffix gives its own label and 0, and a suffix gives its name's label and
   * its minutes.
   */
  predicate TaskFromGroup(group: Option<string>, t: string, d: int) {
    && (group.None? || group.value == [] ==> t == DefaultLabel && d == 0)
    && (group.Some? && group.value != [] && DurationSuffix(group.value).None? ==> t == LabelOrDefault(group.value) && d == 0)
    && (group.Some? && group.value != [] && DurationSuffix(group.value).Some? ==>
          t == LabelOrDefault(DurationSuffix(group.value).value.0) && d == DurationSuffix(group.value).value.1)
  }

  /** What the label group decides about the task name and duration. */
  lemma TaskAndDurationCases(group: Option<string>)
    ensures TaskFromGroup(group, TaskAndDuration(group).0, TaskAndDuration(group).1)
  {
    if group.None? {
      NoGroupTask(group);
    } else if group.value == [] {
      EmptyGroupTask(group.value);
    } else if DurationSuffix(group.value).Some? {
      SuffixTask(group.value);
    } else {
      PlainTask(group.value);
    }
  }

  /** A label with a duration suffix keeps the suffix's name and minutes. */
  lemma SuffixTask(g: string)
    requires g != [] && DurationSuffix(g).Some?
    ensures TaskFromGroup(Some(g), TaskAndDuration(Some(g)).0, TaskAndDuration(Some(g)).1)
  {
    var n, d := DurationSuffix(g).value.0, DurationSuffix(g).value.1;
    assert NameAndDuration(g) == (Trim(n), d);
    LabelOrDefaultTrim(n);
  }

  /** A label without a duration suffix is kept whole, with no duration. */
  lemma PlainTask(g: string)
    requires g != [] && DurationSuffix(g).None?
    ensures TaskFromGroup(Some(g), TaskAndDuration(Some(g)).0, TaskAndDuration(Some(g)).1)
  {
    assert NameAndDuration(g) == (g, 0);
  }

  /** An empty label group gives the default label and no duration. */
  lemma EmptyGroupTask(g: string)
    requires g == []
    ensures TaskFromGroup(Some(g), TaskAndDuration(Some(g)).0, TaskAndDuration(Some(g)).1)
  {
  }

  /** A missing label group gives the default label and no duration. */
  lemma NoGroupTask(group: Option<string>)
    requires group.None?
    ensures TaskFromGroup(group, TaskAndDuration(group).0, TaskAndDuration(group).1)
  {
  }

  /** Trimming first does not change the label kept. */
  lemma LabelOrDefaultTrim(n: string)
    ensures LabelOrDefault(Trim(n)) == LabelOrDefault(n)
  {
    var t := Trim(n);
    assert Trim(t) == t by {
      TrimOfTrimmed(t);
    }
  }

  /**
   * One line of the chime file, at position `index`. The line is trimmed,
   * must start with `HH:MM`, and may carry a label and a duration suffix.
   */
  function ParseChimeLine(raw: string, index: nat): (r: Option<Entry>)
    ensures r.Some? <==> HasClockPrefix(Trim(raw)) && LabelGroup(Trim(raw)[5..]).Some?
    ensures r.Some? ==>
              && r.value.originalIndex == index
              && r.value.time == Trim(raw)[..5]
              && r.value.date == ClockPrefix(Trim(raw)).value * MsPerMinute
              && r.value.date % MsPerMinute == 0
              && r.value.duration >= 0
              && r.value.task != [] && Trim(r.value.task) == r.value.task
  {
    var line := Trim(raw);
    if line == [] || !HasClockPrefix(line) then None
    else
      match LabelGroup(line[5..])
      case None => None
      case Some(group) => Some(LabeledEntry(line, group, index))
  }

  /** The default label carries no duration suffix and nothing to trim. */
  lemma DefaultLabelPlain()
    ensures DurationSuffix(DefaultLabel) == None
    ensures Trim(DefaultLabel) == DefaultLabel
  {
    var s := DefaultLabel;
    assert |s| == 14 && s[13] == 'e' && s[11] == 'i' && s[10] == 'h' && s[11] == 'i';
    assert !SameLetter(s[13], 's');
    assert s[..|s| - 0] == s;
    assert !EndsWithWord(s, "min") by {
      assert !SameLetter(s[|s| - 3 + 0], "min"[0]);
    }
    assert !EndsWithWord(s, "hour") by {
      assert !SameLetter(s[|s| - 4 + 1], "hour"[1]);
    }
    TrimOfTrimmed(s);
  }

  /**
   * A trimmed line that is `HH:MM` alone, or `HH:MM -` with nothing after the
   * dash, gets the default label and an unknown duration.
   */
  lemma UnlabeledLine(raw: string, index: nat)
    requires Trim(raw) == raw && HasClockPrefix(raw)
    requires LabelGroup(raw[5..]) == Some(None) || LabelGroup(raw[5..]) == Some(Some([]))
    ensures ParseChimeLine(raw, index) == Some(Entry(raw[..5], DefaultLabel, ClockPrefix(raw).value * MsPerMinute, 0, index))
  {
    DefaultLabelPlain();
  }

  // ---------------------------------------------------------------------------
  // The duration suffix, both ways
  // ---------------------------------------------------------------------------

  /** `u` is the unit word `w` in any ASCII case, maybe followed by a plural `s`. */
  predicate UnitWord(u: string, w: string) {
    && (|u| == |w| || (|u| == |w| + 1 && SameLetter(u[|w|], 's')))
    && forall i :: 0 <= i < |w| ==> SameLetter(u[i], w[i])
  }

  function UnitName(isHour: bool): string {
    if isHour then "hour" else "min"
  }

  /** The minutes `value` units make: an hour is sixty of them. */
  function UnitMinutes(value: nat, isHour: bool): nat {
    if isHour then value * 60 else value
  }

  /**
   * `s` is `name`, a dash, white space, a run of digits, white space and a
   * unit: the text `\s*-\s*(\d+)\s*(min|hour)s?$` matches after `name`.
   */
  predicate SuffixShape(s: string, name: string, ws1: string, digits: string, ws2: string, unit: string, isHour: bool) {
    && s == name + "-" + ws1 + digits + ws2 + unit
    && AllSpace(ws1) && AllSpace(ws2)
    && digits != [] && AllDigits(digits)
    && UnitWord(unit, UnitName(isHour))
  }

  /** A unit word at the end is what `UnitSuffix` cuts off. */
  lemma UnitSuffixOf(pre: string, unit: string, isHour: bool)
    requires UnitWord(unit, UnitName(isHour))
    ensures UnitSuffix(pre + unit) == Some((|unit|, isHour))
  {
    var s := pre + unit;
    var w := UnitName(isHour);
    var n := |w|;
    assert SameLetter(unit[n - 1], w[n - 1]);
    var t := pre + unit[..n];
    if |unit| == n {
      assert s[|s| - 1] == unit[n - 1];
      assert s[..|s| - 0] == t;
    } else {
      assert s[|s| - 1] == unit[n];
      assert s[..|s| - 1] == t;
    }
    assert t[|t| - 1] == unit[n - 1];
    assert EndsWithWord(t, w) by {
      forall i | 0 <= i < |w| ensures SameLetter(t[|t| - |w| + i], w[i]) {
        assert t[|t| - |w| + i] == unit[i];
      }
    }
    if isHour {
      assert !SameLetter(t[|t| - 3 + 2], "min"[2]);
    }
  }

  /** What `UnitSuffix` cuts off is a unit word. */
  lemma UnitOfSuffix(s: string)
    requires UnitSuffix(s).Some?
    ensures UnitWord(s[|s| - UnitSuffix(s).value.0..], UnitName(UnitSuffix(s).value.1))
  {
    var n, isHour := UnitSuffix(s).value.0, UnitSuffix(s).value.1;
    var w := UnitName(isHour);
    var plural := if |s| > 0 && SameLetter(s[|s| - 1], 's') then 1 else 0;
    var t := s[..|s| - plural];
    assert EndsWithWord(t, w);
    var u := s[|s| - n..];
    forall i | 0 <= i < |w| ensures SameLetter(u[i], w[i]) {
      assert u[i] == t[|t| - |w| + i];
    }
    if plural == 1 {
      assert u[|w|] == s[|s| - 1];
    }
  }

  /** Digits after a non-digit are exactly the trailing digit run. */
  lemma {:induction false} TrailingDigitsAfter(a: string, digits: string)
    requires a != [] && !IsDigit(a[|a| - 1]) && AllDigits(digits)
    ensures TrailingDigits(a + digits) == digits
    decreases |digits|
  {
    var s := a + digits;
    if digits == [] {
      assert s == a;
    } else {
      var init := digits[..|digits| - 1];
      assert s[..|s| - 1] == a + init;
      TrailingDigitsAfter(a, init);
      assert init + [digits[|digits| - 1]] == digits;
    }
  }

  /** The dash, then white space: the name is what precedes the dash, less its trailing white space. */
  lemma DashThenName(name: string, ws1: string, minutes: int)
    requires AllSpace(ws1)
    ensures NameBeforeDash(name + "-" + ws1, minutes) == Some((AfterLastLineTerminator(TrimEnd(name)), minutes))
  {
    var dashed := name + "-";
    TrimEndDashed(name, ws1);
    assert dashed[..|dashed| - 1] == name;
  }

  /** White space after the dash is all that `TrimEnd` removes. */
  lemma TrimEndDashed(name: string, ws1: string)
    requires AllSpace(ws1)
    ensures TrimEnd(name + "-" + ws1) == name + "-"
  {
    var dashed := name + "-";
    assert name + "-" + ws1 == dashed + ws1;
    TrimEndAppendSpace(dashed, ws1);
    TrimEndKeeps(dashed);
  }

  /** The number before the unit and the name before the number. */
  lemma NumberThenName(name: string, ws1: string, digits: string, ws2: string, isHour: bool)
    requires AllSpace(ws1) && AllSpace(ws2) && digits != [] && AllDigits(digits)
    ensures NumberBeforeUnit(name + "-" + ws1 + digits + ws2, isHour)
            == Some((AfterLastLineTerminator(TrimEnd(name)), UnitMinutes(DigitsValue(digits), isHour)))
  {
    var a := name + "-" + ws1;
    var numbered := a + digits;
    TrimEndNumbered(a, digits, ws2);
    assert a != [] && !IsDigit(a[|a| - 1]) by {
      if ws1 != [] {
        assert a[|a| - 1] == ws1[|ws1| - 1];
      }
    }
    TrailingDigitsAfter(a, digits);
    assert numbered[..|numbered| - |digits|] == a;
    DashThenName(name, ws1, UnitMinutes(DigitsValue(digits), isHour));
  }

  /** White space after the number is all that `TrimEnd` removes. */
  lemma TrimEndNumbered(a: string, digits: string, ws2: string)
    requires AllSpace(ws2) && digits != [] && AllDigits(digits)
    ensures TrimEnd(a + digits + ws2) == a + digits
  {
    var numbered := a + digits;
    assert numbered[|numbered| - 1] == digits[|digits| - 1];
    TrimEndAppendSpace(numbered, ws2);
    TrimEndKeeps(numbered);
  }

  /**
   * A label ending in `- N min|hour[s]` (white space allowed around the dash
   * and before the unit, the unit in any ASCII case) has that suffix: `N`
   * minutes, or `60 N` for hours, and the name before the dash without its
   * trailing white space (from its last line terminator on, as `.` cannot
   * cross one).
   */
  lemma SuffixReads(s: string, name: string, ws1: string, digits: string, ws2: string, unit: string, isHour: bool)
    requires SuffixShape(s, name, ws1, digits, ws2, unit, isHour)
    ensures DurationSuffix(s) == Some((AfterLastLineTerminator(TrimEnd(name)), UnitMinutes(DigitsValue(digits), isHour)))
  {
    var pre := name + "-" + ws1 + digits + ws2;
    assert s == pre + unit;
    UnitSuffixOf(pre, unit, isHour);
    assert s[..|s| - |unit|] == pre;
    NumberThenName(name, ws1, digits, ws2, isHour);
  }

  /** Every suffix `DurationSuffix` finds has that shape. */
  lemma ShapeOfSuffix(s: string) returns (name: string, ws1: string, digits: string, ws2: string, unit: string, isHour: bool)
    requires DurationSuffix(s).Some?
    ensures SuffixShape(s, name, ws1, digits, ws2, unit, isHour)
  {
    var n: nat;
    n, isHour := UnitSuffix(s).value.0, UnitSuffix(s).value.1;
    var t := s[..|s| - n];
    assert NumberBeforeUnit(t, isHour).Some?;
    unit := s[|s| - n..];
    assert UnitWord(unit, UnitName(isHour)) by {
      UnitOfSuffix(s);
    }
    name, ws1, digits, ws2 := ShapeOfNumber(t, isHour);
    assert s == t + unit;
  }

  /** The text before the unit, when a number and a dash precede it. */
  lemma ShapeOfNumber(t: string, isHour: bool) returns (name: string, ws1: string, digits: string, ws2: string)
    requires NumberBeforeUnit(t, isHour).Some?
    ensures t == name + "-" + ws1 + digits + ws2
    ensures AllSpace(ws1) && AllSpace(ws2) && digits != [] && AllDigits(digits)
  {
    var beforeUnit := TrimEnd(t);
    ws2 := t[|beforeUnit|..];
    SpaceTail(t, beforeUnit, ws2);
    digits := TrailingDigits(beforeUnit);
    var u := beforeUnit[..|beforeUnit| - |digits|];
    assert beforeUnit == u + digits;
    name, ws1 := ShapeOfName(u, if isHour then DigitsValue(digits) * 60 else DigitsValue(digits));
  }

  /** The text before the number, when it ends in a dash and white space. */
  lemma ShapeOfName(u: string, minutes: int) returns (name: string, ws1: string)
    requires NameBeforeDash(u, minutes).Some?
    ensures u == name + "-" + ws1 && AllSpace(ws1)
  {
    var beforeNumber := TrimEnd(u);
    ws1 := u[|beforeNumber|..];
    SpaceTail(u, beforeNumber, ws1);
    name := beforeNumber[..|beforeNumber| - 1];
    assert beforeNumber == name + "-";
  }

  /** What `TrimEnd` leaves off is white space. */
  lemma SpaceTail(t: string, kept: string, rest: string)
    requires kept == TrimEnd(t) && rest == t[|kept|..]
    ensures t == kept + rest && AllSpace(rest)
  {
    forall i | 0 <= i < |rest| ensures IsSpace(rest[i]) {
      assert rest[i] == t[|kept| + i];
    }
  }

  /**
   * The duration suffix, both ways: a label has one exactly when it ends in
   * `- N min|hour[s]`, and then its minutes and name are those that ending gives.
   */
  lemma DurationSuffixExactly(s: string)
    ensures DurationSuffix(s).Some? <==> exists name, ws1, digits, ws2, unit, isHour :: SuffixShape(s, name, ws1, digits, ws2, unit, isHour)
    ensures forall name, ws1, digits, ws2, unit, isHour :: SuffixShape(s, name, ws1, digits, ws2, unit, isHour) ==>
              DurationSuffix(s) == Some((AfterLastLineTerminator(TrimEnd(name)), UnitMinutes(DigitsValue(digits), isHour)))
  {
    forall name, ws1, digits, ws2, unit, isHour | SuffixShape(s, name, ws1, digits, ws2, unit, isHour)
      ensures DurationSuffix(s) == Some((AfterLastLineTerminator(TrimEnd(name)), UnitMinutes(DigitsValue(digits), isHour)))
    {
      SuffixReads(s, name, ws1, digits, ws2, unit, isHour);
    }
    if DurationSuffix(s).Some? {
      var name, ws1, digits, ws2, unit, isHour := ShapeOfSuffix(s);
    }
  }

  /**
   * A line `HH:MM - label` whose label ends in `- N min|hour[s]` chimes for
   * `N` minutes (`60 N` for hours) under the name before the dash, trimmed,
   * or under the default label when that name is blank.
   */
  lemma LineWithDuration(raw: string, index: nat, name: string, ws1: string, digits: string, ws2: string, unit: string, isHour: bool)
    requires HasClockPrefix(Trim(raw))
    requires LabelGroup(Trim(raw)[5..]).Some? && LabelGroup(Trim(raw)[5..]).value.Some?
    requires SuffixShape(LabelGroup(Trim(raw)[5..]).value.value, name, ws1, digits, ws2, unit, isHour)
    ensures ParseChimeLine(raw, index)
            == Some(Entry(Trim(raw)[..5], LabelOrDefault(name), ClockPrefix(Trim(raw)).value * MsPerMinute,
                          UnitMinutes(DigitsValue(digits), isHour), index))
  {
    var line := Trim(raw);
    var l := LabelGroup(line[5..]).value.value;
    EntryOfSuffix(line, l, index, name, ws1, digits, ws2, unit, isHour);
    assert ParseChimeLine(raw, index) == Some(LabeledEntry(line, Some(l), index));
  }

  /** The entry of a one-line label with a duration suffix. */
  lemma EntryOfSuffix(line: string, l: string, index: nat, name: string, ws1: string, digits: string, ws2: string, unit: string, isHour: bool)
    requires HasClockPrefix(line)
    requires SingleLine(l) && SuffixShape(l, name, ws1, digits, ws2, unit, isHour)
    ensures LabeledEntry(line, Some(l), index)
            == Entry(line[..5], LabelOrDefault(name), ClockPrefix(line).value * MsPerMinute, UnitMinutes(DigitsValue(digits), isHour), index)
  {
    var e := LabeledEntry(line, Some(l), index);
    assert |l| > 0;
    LabelSuffix(l, name, ws1, digits, ws2, unit, isHour);
    assert e.task == LabelOrDefault(name) && e.duration == UnitMinutes(DigitsValue(digits), isHour);
  }

  /** The duration suffix of a one-line label, and the label it leaves. */
  lemma LabelSuffix(l: string, name: string, ws1: string, digits: string, ws2: string, unit: string, isHour: bool)
    requires SingleLine(l) && SuffixShape(l, name, ws1, digits, ws2, unit, isHour)
    ensures DurationSuffix(l) == Some((TrimEnd(name), UnitMinutes(DigitsValue(digits), isHour)))
    ensures LabelOrDefault(TrimEnd(name)) == LabelOrDefault(name)
  {
    SuffixReads(l, name, ws1, digits, ws2, unit, isHour);
    var kept := TrimEnd(name);
    assert SingleLine(kept) by {
      forall i | 0 <= i < |kept| ensures !IsLineTerminator(kept[i]) {
        assert kept[i] == l[i];
      }
    }
    TrimOfTrimEnd(name);
    LabelOrDefaultTrim(kept);
    LabelOrDefaultTrim(name);
  }

  /** A line whose label does not end in `- N min|hour[s]` keeps the whole label and an unknown duration. */
  lemma LineWithoutDuration(raw: string, index: nat)
    requires HasClockPrefix(Trim(raw))
    requires LabelGroup(Trim(raw)[5..]).Some? && LabelGroup(Trim(raw)[5..]).value.Some?
    requires var l := LabelGroup(Trim(raw)[5..]).value.value;
             forall name, ws1, digits, ws2, unit, isHour :: !SuffixShape(l, name, ws1, digits, ws2, unit, isHour)
    ensures ParseChimeLine(raw, index)
            == Some(Entry(Trim(raw)[..5], LabelOrDefault(LabelGroup(Trim(raw)[5..]).value.value),
                          ClockPrefix(Trim(raw)).value * MsPerMinute, 0, index))
  {
    DurationSuffixExactly(LabelGroup(Trim(raw)[5..]).value.value);
    DefaultLabelPlain();
  }

  // ---------------------------------------------------------------------------
  // The whole file
  // ---------------------------------------------------------------------------

  /** Each line's parse, line `k` carrying index `k`. */
  function LineResults(lines: seq<string>): (r: seq<Option<Entry>>)
    ensures |r| == |lines|
    ensures forall k :: 0 <= k < |lines| ==> r[k] == ParseChimeLine(lines[k], k)
  {
    seq(|lines|, k requires 0 <= k < |lines| => ParseChimeLine(lines[k], k))
  }

  /** The accepted lines of a chime file, in file order. */
  function Entries(text: string): seq<Entry> {
    Somes(LineResults(SplitLines(text)))
  }

  /** The line a result came from is the one its index names. */
  predicate FromLine(lines: seq<string>, e: Entry) {
    e.originalIndex < |lines| && ParseChimeLine(lines[e.originalIndex], e.originalIndex) == Some(e)
  }

  /** An entry in front of later-indexed ones keeps the indices increasing and within bounds. */
  lemma ConsInOrder(e: Entry, rest: seq<Entry>, first: nat, n: nat)
    requires e.originalIndex == first && n >= 1
    requires StrictlyIncreasingBy(rest, EntryIndex)
    requires forall i :: 0 <= i < |rest| ==> first + 1 <= rest[i].originalIndex < first + n
    ensures StrictlyIncreasingBy([e] + rest, EntryIndex)
    ensures forall i :: 0 <= i < |[e] + rest| ==> first <= ([e] + rest)[i].originalIndex < first + n
  {
    var r := [e] + rest;
    forall i, j | 0 <= i < j < |r| ensures EntryIndex(r[i]) < EntryIndex(r[j]) {
      assert r[j] == rest[j - 1];
      if i > 0 {
        assert r[i] == rest[i - 1];
        assert EntryIndex(rest[i - 1]) < EntryIndex(rest[j - 1]);
      } else {
        assert r[i] == e;
        assert EntryIndex(e) == first < rest[j - 1].originalIndex;
      }
    }
    forall i | 0 <= i < |r| ensures first <= r[i].originalIndex < first + n {
      if i > 0 {
        assert r[i] == rest[i - 1];
      }
    }
  }

  lemma {:induction false} SomesInOrder(xs: seq<Option<Entry>>, first: nat)
    requires forall k :: 0 <= k < |xs| && xs[k].Some? ==> xs[k].value.originalIndex == first + k
    ensures StrictlyIncreasingBy(Somes(xs), EntryIndex)
    ensures forall i :: 0 <= i < |Somes(xs)| ==> first <= Somes(xs)[i].originalIndex < first + |xs|
    decreases |xs|
  {
    if xs != [] {
      var rest := Somes(xs[1..]);
      forall k | 0 <= k < |xs[1..]| && xs[1..][k].Some? ensures xs[1..][k].value.originalIndex == first + 1 + k {
        assert xs[1..][k] == xs[k + 1];
      }
      SomesInOrder(xs[1..], first + 1);
      if xs[0].Some? {
        assert Somes(xs) == [xs[0].value] + rest;
        ConsInOrder(xs[0].value, rest, first, |xs|);
      } else {
        assert Somes(xs) == rest;
      }
    }
  }

  lemma ResultFromLine(lines: seq<string>, e: Entry)
    requires Some(e) in LineResults(lines)
    ensures FromLine(lines, e)
  {
    var k := IndexOfSome(LineResults(lines), e);
    LineResultAt(lines, k, e);
  }

  lemma LineResultAt(lines: seq<string>, k: nat, e: Entry)
    requires k < |lines| && ParseChimeLine(lines[k], k) == Some(e)
    ensures FromLine(lines, e)
  {
  }

  /** Every entry comes from the line its index names, and they are in file order. */
  lemma EntriesFromLines(text: string)
    ensures StrictlyIncreasingBy(Entries(text), EntryIndex)
    ensures forall i :: 0 <= i < |Entries(text)| ==> FromLine(SplitLines(text), Entries(text)[i])
  {
    var lines := SplitLines(text);
    var xs := LineResults(lines);
    SomesInOrder(xs, 0);
    forall i | 0 <= i < |Entries(text)| ensures FromLine(lines, Entries(text)[i]) {
      ResultFromLine(lines, Entries(text)[i]);
    }
  }

  /** Known duration, else the gap to the next start, else the default for the last interval. */
  function Completed(es: seq<Entry>, i: nat): Interval
    requires i < |es|
  {
    var e := es[i];
    var d :=
      if e.duration != 0 then e.duration
      else if i + 1 < |es| then (es[i + 1].date - e.date) / MsPerMinute
      else DefaultLastDuration;
    Interval(e.time, e.task, e.date, d, e.date + d * MsPerMinute, e.originalIndex)
  }

  /**
   * The intervals of sorted entries: every field but the duration is kept, a
   * known duration is kept, the last interval defaults to 15 minutes, and
   * every interval ends `duration` minutes after it starts.
   */
  function InferDurations(es: seq<Entry>): (r: seq<Interval>)
    ensures |r| == |es|
    ensures forall i :: 0 <= i < |es| ==>
              && r[i].time == es[i].time && r[i].task == es[i].task
              && r[i].date == es[i].date && r[i].originalIndex == es[i].originalIndex
              && r[i].endDate == r[i].date + r[i].duration * MsPerMinute
              && (es[i].duration != 0 ==> r[i].duration == es[i].duration)
              && (es[i].duration == 0 && i == |es| - 1 ==> r[i].duration == DefaultLastDuration)
  {
    seq(|es|, i requires 0 <= i < |es| => Completed(es, i))
  }

  /** Dates on whole minutes, as every parsed line has. */
  predicate OnMinutes(es: seq<Entry>) {
    forall i :: 0 <= i < |es| ==> es[i].date % MsPerMinute == 0
  }

  /**
   * An interval whose duration was inferred from the gap ends exactly where
   * the next one starts, so it never gets an end alert of its own.
   */
  lemma InferredMeetsNext(es: seq<Entry>, i: nat)
    requires OnMinutes(es) && SortedBy(es, EntryDate)
    requires i + 1 < |es| && es[i].duration == 0
    ensures InferDurations(es)[i].endDate == InferDurations(es)[i + 1].date
    ensures InferDurations(es)[i].duration >= 0
    ensures Collapses(InferDurations(es), i)
  {
    var gap := es[i + 1].date - es[i].date;
    assert EntryDate(es[i]) <= EntryDate(es[i + 1]);
    assert gap % MsPerMinute == 0 by {
      var a := es[i].date / MsPerMinute;
      var b := es[i + 1].date / MsPerMinute;
      assert es[i].date == a * MsPerMinute && es[i + 1].date == b * MsPerMinute;
      assert gap == (b - a) * MsPerMinute;
    }
    assert gap / MsPerMinute * MsPerMinute == gap;
  }

  /** One interval's alert points: a start, and an end unless the next interval starts right then. */
  predicate Collapses(ivs: seq<Interval>, i: nat)
    requires i < |ivs|
  {
    i + 1 < |ivs| && ivs[i].endDate == ivs[i + 1].date
  }

  function StartPoint(iv: Interval): AlertPoint { AlertPoint(iv.date, Start, iv) }
  function EndPoint(iv: Interval): AlertPoint { AlertPoint(iv.endDate, End, iv) }

  function PointsOf(ivs: seq<Interval>, i: nat): seq<AlertPoint>
    requires i < |ivs|
  {
    [StartPoint(ivs[i])] + (if Collapses(ivs, i) then [] else [EndPoint(ivs[i])])
  }

  /** The alert points of `ivs[from..]`, interval by interval, before sorting. */
  function RawPoints(ivs: seq<Interval>, from: nat): seq<AlertPoint>
    decreases |ivs| - from
  {
    if from >= |ivs| then [] else PointsOf(ivs, from) + RawPoints(ivs, from + 1)
  }

  /**
   * The alert points, sorted by instant; points at the same instant keep
   * their order in `RawPoints`, that is interval order, start before end.
   */
  function AlertPoints(ivs: seq<Interval>): (r: seq<AlertPoint>)
    ensures SortedBy(r, PointDate)
    ensures multiset(r) == multiset(RawPoints(ivs, 0))
    ensures forall k :: WithKey(r, PointDate, k) == WithKey(RawPoints(ivs, 0), PointDate, k)
  {
    StableSort(RawPoints(ivs, 0), PointDate)
  }

  predicate Distinct<T(==)>(s: seq<T>) {
    forall i, j :: 0 <= i < j < |s| ==> s[i] != s[j]
  }

  /** No other interval equals interval `i`. */
  predicate Unique(ivs: seq<Interval>, i: nat) {
    i < |ivs| && forall k :: 0 <= k < |ivs| && k != i ==> ivs[k] != ivs[i]
  }

  /** How often `p` occurs among the alert points of `ivs[from..]`, interval by interval. */
  function PointCount(ivs: seq<Interval>, from: nat, p: AlertPoint): nat
    decreases |ivs| - from
  {
    if from >= |ivs| then 0 else OwnCount(ivs, from, p) + PointCount(ivs, from + 1, p)
  }

  /** How often `p` occurs among the alert points of interval `j` alone. */
  function OwnCount(ivs: seq<Interval>, j: nat, p: AlertPoint): nat
    requires j < |ivs|
  {
    (if p == StartPoint(ivs[j]) then 1 else 0) + (if !Collapses(ivs, j) && p == EndPoint(ivs[j]) then 1 else 0)
  }

  lemma OwnCountOfPoints(ivs: seq<Interval>, j: nat, p: AlertPoint)
    requires j < |ivs|
    ensures multiset(PointsOf(ivs, j))[p] == OwnCount(ivs, j, p)
  {
    assert StartPoint(ivs[j]) != EndPoint(ivs[j]);
  }

  lemma {:induction false} RawPointsCount(ivs: seq<Interval>, from: nat, p: AlertPoint)
    ensures multiset(RawPoints(ivs, from))[p] == PointCount(ivs, from, p)
    decreases |ivs| - from
  {
    if from < |ivs| {
      RawPointsCount(ivs, from + 1, p);
      OwnCountOfPoints(ivs, from, p);
      assert RawPoints(ivs, from) == PointsOf(ivs, from) + RawPoints(ivs, from + 1);
    } else {
      assert RawPoints(ivs, from) == [];
    }
  }

  /** After interval `i`, no later interval contributes its start or end point. */
  lemma {:induction false} CountAfter(ivs: seq<Interval>, from: nat, i: nat)
    requires Unique(ivs, i) && i < from && i < |ivs|
    ensures PointCount(ivs, from, StartPoint(ivs[i])) == 0
    ensures PointCount(ivs, from, EndPoint(ivs[i])) == 0
    decreases |ivs| - from
  {
    if from < |ivs| {
      CountAfter(ivs, from + 1, i);
      assert ivs[from] != ivs[i];
    }
  }

  /** Up to interval `i`, its start point occurs once, and its end point once unless it collapses. */
  lemma {:induction false} CountUpTo(ivs: seq<Interval>, from: nat, i: nat)
    requires Unique(ivs, i) && from <= i < |ivs|
    ensures PointCount(ivs, from, StartPoint(ivs[i])) == 1
    ensures PointCount(ivs, from, EndPoint(ivs[i])) == (if Collapses(ivs, i) then 0 else 1)
    decreases i - from
  {
    if from < i {
      CountUpTo(ivs, from + 1, i);
      assert ivs[from] != ivs[i];
    } else {
      CountAfter(ivs, i + 1, i);
    }
  }

  lemma {:induction false} RawPointsMember(ivs: seq<Interval>, from: nat, p: AlertPoint)
    requires p in RawPoints(ivs, from)
    ensures exists i :: from <= i < |ivs| && (p == StartPoint(ivs[i]) || p == EndPoint(ivs[i]))
    decreases |ivs| - from
  {
    if p !in PointsOf(ivs, from) {
      RawPointsMember(ivs, from + 1, p);
    }
  }

  /**
   * For distinct intervals: each has exactly one start point, an end point
   * exactly when the next interval does not begin at its end, and there are
   * no other points.
   */
  lemma AlertPointCounts(ivs: seq<Interval>)
    requires Distinct(ivs)
    ensures forall i :: 0 <= i < |ivs| ==>
              && multiset(AlertPoints(ivs))[StartPoint(ivs[i])] == 1
              && multiset(AlertPoints(ivs))[EndPoint(ivs[i])] == (if Collapses(ivs, i) then 0 else 1)
    ensures forall p :: p in AlertPoints(ivs) ==>
              exists i :: 0 <= i < |ivs| && (p == StartPoint(ivs[i]) || p == EndPoint(ivs[i]))
  {
    forall i | 0 <= i < |ivs|
      ensures multiset(AlertPoints(ivs))[StartPoint(ivs[i])] == 1
      ensures multiset(AlertPoints(ivs))[EndPoint(ivs[i])] == (if Collapses(ivs, i) then 0 else 1)
    {
      assert Unique(ivs, i) by {
        forall k | 0 <= k < |ivs| && k != i ensures ivs[k] != ivs[i] {
          if k < i {
            assert ivs[k] != ivs[i];
          } else {
            assert ivs[i] != ivs[k];
          }
        }
      }
      RawPointsCount(ivs, 0, StartPoint(ivs[i]));
      RawPointsCount(ivs, 0, EndPoint(ivs[i]));
      CountUpTo(ivs, 0, i);
    }
    forall p | p in AlertPoints(ivs)
      ensures exists i :: 0 <= i < |ivs| && (p == StartPoint(ivs[i]) || p == EndPoint(ivs[i]))
    {
      assert p in multiset(AlertPoints(ivs));
      RawPointsMember(ivs, 0, p);
    }
  }

  /** `parseChimeConfig(text)`. */
  function ParseChimeConfig(text: string): Schedule {
    var sorted := StableSort(Entries(text), EntryDate);
    var intervals := InferDurations(sorted);
    Schedule(intervals, AlertPoints(intervals))
  }

  /** What every parsed line guarantees: a start on a whole minute and a duration that is not negative. */
  predicate WellFormed(es: seq<Entry>) {
    forall i :: 0 <= i < |es| ==> es[i].date % MsPerMinute == 0 && es[i].duration >= 0
  }

  lemma FromLineWellFormed(lines: seq<string>, e: Entry)
    requires FromLine(lines, e)
    ensures e.date % MsPerMinute == 0 && e.duration >= 0
  {
  }

  lemma SortedEntriesFromLines(text: string)
    ensures var sorted := StableSort(Entries(text), EntryDate);
            && TiesOrderedBy(sorted, EntryDate, EntryIndex)
            && (forall i :: 0 <= i < |sorted| ==> FromLine(SplitLines(text), sorted[i]))
  {
    var es := Entries(text);
    var sorted := StableSort(es, EntryDate);
    EntriesFromLines(text);
    StableSortOrdersTies(es, EntryDate, EntryIndex);
    forall i | 0 <= i < |sorted| ensures FromLine(SplitLines(text), sorted[i]) {
      SortKeepsMembers(es, EntryDate, sorted[i]);
      var j := IndexOf(es, sorted[i]);
    }
  }

  lemma SortedEntriesWellFormed(text: string)
    ensures var sorted := StableSort(Entries(text), EntryDate);
            && SortedBy(sorted, EntryDate)
            && TiesOrderedBy(sorted, EntryDate, EntryIndex)
            && WellFormed(sorted)
  {
    var sorted := StableSort(Entries(text), EntryDate);
    SortedEntriesFromLines(text);
    forall i | 0 <= i < |sorted| ensures sorted[i].date % MsPerMinute == 0 && sorted[i].duration >= 0 {
      FromLineWellFormed(SplitLines(text), sorted[i]);
    }
  }

  /**
   * Intervals inferred from well-formed sorted entries: sorted by start with
   * ties in entry order, pairwise distinct, never of negative length, and an
   * entry without a duration runs until the next start.
   */
  lemma IntervalsOfSorted(es: seq<Entry>)
    requires SortedBy(es, EntryDate) && TiesOrderedBy(es, EntryDate, EntryIndex) && WellFormed(es)
    ensures var ivs := InferDurations(es);
            && SortedBy(ivs, IntervalDate)
            && TiesOrderedBy(ivs, IntervalDate, IntervalIndex)
            && Distinct(ivs)
            && (forall i :: 0 <= i < |ivs| ==> ivs[i].duration >= 0)
            && (forall i :: 0 <= i < |ivs| - 1 && es[i].duration == 0 ==> ivs[i].endDate == ivs[i + 1].date)
  {
    var ivs := InferDurations(es);
    assert OnMinutes(es);
    forall i, j | 0 <= i < j < |ivs| ensures IntervalDate(ivs[i]) <= IntervalDate(ivs[j]) {
      assert EntryDate(es[i]) <= EntryDate(es[j]);
    }
    forall i, j | 0 <= i < j < |ivs| && IntervalDate(ivs[i]) == IntervalDate(ivs[j])
      ensures IntervalIndex(ivs[i]) < IntervalIndex(ivs[j])
    {
      assert EntryDate(es[i]) == EntryDate(es[j]);
    }
    forall i, j | 0 <= i < j < |ivs| ensures ivs[i] != ivs[j] {
      assert EntryDate(es[i]) <= EntryDate(es[j]);
      if ivs[i].date == ivs[j].date {
        assert EntryDate(es[i]) == EntryDate(es[j]);
      }
    }
    forall i | 0 <= i < |ivs| ensures ivs[i].duration >= 0 {
      if es[i].duration == 0 && i + 1 < |ivs| {
        InferredMeetsNext(es, i);
      }
    }
    forall i | 0 <= i < |ivs| - 1 && es[i].duration == 0 ensures ivs[i].endDate == ivs[i + 1].date {
      InferredMeetsNext(es, i);
    }
  }

  /**
   * The intervals of a chime file are sorted by start with ties in file
   * order, pairwise distinct, and each ends `duration` minutes after it
   * starts, with a duration that is not negative.
   */
  lemma ConfigIntervalsOrdered(text: string)
    ensures var ivs := ParseChimeConfig(text).intervals;
            && SortedBy(ivs, IntervalDate)
            && TiesOrderedBy(ivs, IntervalDate, IntervalIndex)
            && Distinct(ivs)
            && (forall i :: 0 <= i < |ivs| ==>
                  ivs[i].duration >= 0 && ivs[i].endDate == ivs[i].date + ivs[i].duration * MsPerMinute)
  {
    SortedEntriesWellFormed(text);
    IntervalsOfSorted(StableSort(Entries(text), EntryDate));
  }

  /** The interval keeps what its line said: time, label, start and any stated duration. */
  predicate LineOf(lines: seq<string>, iv: Interval) {
    && iv.originalIndex < |lines|
    && var parsed := ParseChimeLine(lines[iv.originalIndex], iv.originalIndex);
    && parsed.Some?
    && parsed.value.time == iv.time && parsed.value.task == iv.task && parsed.value.date == iv.date
    && (parsed.value.duration != 0 ==> iv.duration == parsed.value.duration)
  }

  /** The duration the interval's line stated itself (0 when it stated none). */
  function StatedDuration(lines: seq<string>, iv: Interval): int
    requires LineOf(lines, iv)
  {
    ParseChimeLine(lines[iv.originalIndex], iv.originalIndex).value.duration
  }

  lemma LineOfEntry(lines: seq<string>, e: Entry, iv: Interval)
    requires FromLine(lines, e)
    requires iv.time == e.time && iv.task == e.task && iv.date == e.date && iv.originalIndex == e.originalIndex
    requires e.duration != 0 ==> iv.duration == e.duration
    ensures LineOf(lines, iv) && StatedDuration(lines, iv) == e.duration
  {
  }

  /**
   * Every interval of a chime file comes from its own line and keeps what the
   * line said; a line without a duration runs until the next start, or 15
   * minutes when it is last.
   */
  lemma ConfigIntervalsFromLines(text: string)
    ensures var lines := SplitLines(text);
            var ivs := ParseChimeConfig(text).intervals;
            && (forall i :: 0 <= i < |ivs| ==> LineOf(lines, ivs[i]))
            && (forall i :: 0 <= i < |ivs| - 1 && StatedDuration(lines, ivs[i]) == 0 ==>
                  ivs[i].endDate == ivs[i + 1].date)
            && (|ivs| > 0 && StatedDuration(lines, ivs[|ivs| - 1]) == 0 ==>
                  ivs[|ivs| - 1].duration == DefaultLastDuration)
  {
    var lines := SplitLines(text);
    var sorted := StableSort(Entries(text), EntryDate);
    var ivs := InferDurations(sorted);
    assert forall i :: 0 <= i < |ivs| - 1 && sorted[i].duration == 0 ==> ivs[i].endDate == ivs[i + 1].date by {
      SortedEntriesWellFormed(text);
      IntervalsOfSorted(sorted);
    }
    assert forall i :: 0 <= i < |sorted| ==> FromLine(lines, sorted[i]) by {
      SortedEntriesFromLines(text);
    }
    IntervalsOfLines(lines, sorted, ivs);
    assert ParseChimeConfig(text).intervals == ivs;
    forall i | 0 <= i < |ivs| - 1 && StatedDuration(lines, ivs[i]) == 0 ensures ivs[i].endDate == ivs[i + 1].date {
      assert sorted[i].duration == 0;
    }
  }

  /** Intervals inferred from entries of the lines keep what each line stated. */
  lemma IntervalsOfLines(lines: seq<string>, sorted: seq<Entry>, ivs: seq<Interval>)
    requires ivs == InferDurations(sorted)
    requires forall i :: 0 <= i < |sorted| ==> FromLine(lines, sorted[i])
    ensures forall i :: 0 <= i < |ivs| ==> LineOf(lines, ivs[i]) && StatedDuration(lines, ivs[i]) == sorted[i].duration
  {
    forall i | 0 <= i < |ivs| ensures LineOf(lines, ivs[i]) && StatedDuration(lines, ivs[i]) == sorted[i].duration {
      LineOfEntry(lines, sorted[i], ivs[i]);
    }
  }

  lemma AcceptedLineIsEntry(lines: seq<string>, k: nat)
    requires k < |lines| && ParseChimeLine(lines[k], k).Some?
    ensures ParseChimeLine(lines[k], k).value in Somes(LineResults(lines))
  {
    assert LineResults(lines)[k] == ParseChimeLine(lines[k], k);
  }

  /** Every line the parser accepts has its interval. */
  lemma ConfigKeepsEveryLine(text: string)
    ensures var lines := SplitLines(text);
            var ivs := ParseChimeConfig(text).intervals;
            forall k :: 0 <= k < |lines| && ParseChimeLine(lines[k], k).Some? ==> HasIntervalOf(ivs, k)
  {
    var lines := SplitLines(text);
    var ivs := ParseChimeConfig(text).intervals;
    forall k | 0 <= k < |lines| && ParseChimeLine(lines[k], k).Some? ensures HasIntervalOf(ivs, k) {
      LineKept(text, k);
    }
  }

  /** Some interval comes from line `k`. */
  predicate HasIntervalOf(ivs: seq<Interval>, k: int) {
    exists i :: 0 <= i < |ivs| && ivs[i].originalIndex == k
  }

  /** An accepted line has an interval of its own. */
  lemma LineKept(text: string, k: nat)
    requires k < |SplitLines(text)| && ParseChimeLine(SplitLines(text)[k], k).Some?
    ensures HasIntervalOf(ParseChimeConfig(text).intervals, k)
  {
    var lines := SplitLines(text);
    var es := Entries(text);
    var sorted := StableSort(es, EntryDate);
    var ivs := InferDurations(sorted);
    var e := ParseChimeLine(lines[k], k).value;
    AcceptedLineIsEntry(lines, k);
    SortKeepsMembers(es, EntryDate, e);
    var i := IndexOf(sorted, e);
    assert ivs[i].originalIndex == k;
  }

  /**
   * The alert points of a chime file: sorted, points at one instant in
   * interval order with a start before its end, one start per interval, an
   * end unless it collapses, nothing else.
   */
  lemma ConfigAlertPoints(text: string)
    ensures var sch := ParseChimeConfig(text);
            && SortedBy(sch.alertPoints, PointDate)
            && (forall k :: WithKey(sch.alertPoints, PointDate, k) == WithKey(RawPoints(sch.intervals, 0), PointDate, k))
            && (forall i :: 0 <= i < |sch.intervals| ==>
                  && multiset(sch.alertPoints)[StartPoint(sch.intervals[i])] == 1
                  && multiset(sch.alertPoints)[EndPoint(sch.intervals[i])] ==
                       (if Collapses(sch.intervals, i) then 0 else 1))
            && (forall p :: p in sch.alertPoints ==>
                  exists i :: 0 <= i < |sch.intervals| &&
                    (p == StartPoint(sch.intervals[i]) || p == EndPoint(sch.intervals[i])))
  {
    ConfigIntervalsOrdered(text);
    AlertPointCounts(ParseChimeConfig(text).intervals);
  }
}
