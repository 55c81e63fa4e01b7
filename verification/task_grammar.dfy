/**
 * The task file's line grammar (taskchime-cli.js): `name - duration` lines,
 * where the duration is free text holding `<number> hour(s)` and/or
 * `<integer> min...`, and the write-back `name - <minutes> min` the app uses
 * when it rewrites the file.
 *
 * The regular expressions are modelled as scans over positions of the line:
 * each function returns what the backtracking matcher finds, and its comment
 * says why backtracking cannot find anything else.
 *
 * The source reads minutes with `(\d+)\s*min`, so a fractional minute count
 * it writes back itself (`7.5 min` for `0.125 hours`) reads back as the
 * digits after the point. `ParseDurationAsWritten`,
 * `ParseTaskLineAsWritten` and `LoadTasks` keep that reading, as does the
 * timer; `ParseDuration`, `ParseTaskLine` and `LoadTasksCorrected` accept
 * decimal minutes.
 */
module TaskGrammar {
  import opened Wrappers
  import opened Text
  import opened Decimals

  // ---------------------------------------------------------------------------
  // Scanning positions
  // ---------------------------------------------------------------------------

  /** The first position at or after `i` that does not hold white space (`\s*`, greedy). */
  function SkipSpaces(s: string, i: nat): (j: nat)
    requires i <= |s|
    ensures i <= j <= |s|
    ensures forall k :: i <= k < j ==> IsSpace(s[k])
    ensures j < |s| ==> !IsSpace(s[j])
    decreases |s| - i
  {
    if i < |s| && IsSpace(s[i]) then SkipSpaces(s, i + 1) else i
  }

  /** White space from `i` up to a non-space at `j` is what `SkipSpaces` skips. */
  lemma SkipSpacesIs(s: string, i: nat, j: nat)
    requires i <= j <= |s|
    requires forall k :: i <= k < j ==> IsSpace(s[k])
    requires j < |s| ==> !IsSpace(s[j])
    ensures SkipSpaces(s, i) == j
  {
    var e := SkipSpaces(s, i);
    if e != j {
      assert false;
    }
  }

  /** Where the run of digits starting at `i` ends (`\d+`, greedy). */
  function DigitRunEnd(s: string, i: nat): (j: nat)
    requires i <= |s|
    ensures i <= j <= |s|
    ensures forall k :: i <= k < j ==> IsDigit(s[k])
    ensures j < |s| ==> !IsDigit(s[j])
    decreases |s| - i
  {
    if i < |s| && IsDigit(s[i]) then DigitRunEnd(s, i + 1) else i
  }

  /** Digits from `i` up to a non-digit at `j` are the run `DigitRunEnd` finds. */
  lemma DigitRunEndIs(s: string, i: nat, j: nat)
    requires i <= j <= |s|
    requires forall k :: i <= k < j ==> IsDigit(s[k])
    requires j < |s| ==> !IsDigit(s[j])
    ensures DigitRunEnd(s, i) == j
  {
    var e := DigitRunEnd(s, i);
    if e != j {
      assert false;
    }
  }

  /** The characters between `i` and `j` as a numeral. */
  lemma DigitsBetween(s: string, i: nat, j: nat)
    requires i <= j <= |s|
    requires forall k :: i <= k < j ==> IsDigit(s[k])
    ensures AllDigits(s[i..j])
  {
    assert forall k :: 0 <= k < j - i ==> s[i..j][k] == s[i + k];
  }

  /** No line terminator from `i` to the end: `.` matches all of it. */
  predicate SingleLineFrom(s: string, i: nat) {
    forall k :: i <= k < |s| ==> !IsLineTerminator(s[k])
  }

  /** No line terminator before `j`. */
  predicate SingleLineBefore(s: string, j: nat) {
    forall k :: 0 <= k < j && k < |s| ==> !IsLineTerminator(s[k])
  }

  /** `word` occurs at position `q`. */
  predicate WordAt(s: string, q: nat, word: string) {
    q + |word| <= |s| && forall k :: 0 <= k < |word| ==> s[q + k] == word[k]
  }

  // ---------------------------------------------------------------------------
  // Numbers followed by a unit word
  // ---------------------------------------------------------------------------

  /** A number read at some position of a text, and the position after it. */
  datatype Numeral = Numeral(value: Decimal, end: nat)

  /**
   * `\d+(\.\d+)?` (or just `\d+`) starting at `p`, taken greedily. For the
   * patterns below, backtracking to a shorter number never lets the unit word
   * follow, because a digit or a point would come next.
   */
  function NumberAt(s: string, p: nat, fraction: bool): (r: Option<Numeral>)
    requires p <= |s|
    ensures r.Some? ==> p < r.value.end <= |s|
  {
    var e := DigitRunEnd(s, p);
    if e == p then None
    else if fraction && e + 1 < |s| && s[e] == '.' && IsDigit(s[e + 1]) then
      var e2 := DigitRunEnd(s, e + 1);
      DigitsBetween(s, p, e);
      DigitsBetween(s, e + 1, e2);
      AllDigitsConcat(s[p..e], s[e + 1..e2]);
      Some(Numeral(Decimal(DigitsValue(s[p..e] + s[e + 1..e2]), e2 - e - 1), e2))
    else
      DigitsBetween(s, p, e);
      Some(Numeral(Decimal(DigitsValue(s[p..e]), 0), e))
  }

  /** The number at `p` when `\s*` and `word` follow it. */
  function NumberBefore(s: string, p: nat, word: string, fraction: bool): (r: Option<Decimal>)
    requires p <= |s| && word != []
    ensures r.Some? ==> exists q :: p <= q < |s| && s[q] == word[0]
  {
    match NumberAt(s, p, fraction)
    case None => None
    case Some(Numeral(v, e)) =>
      var q := SkipSpaces(s, e);
      if WordAt(s, q, word) then
        assert s[q + 0] == word[0];
        Some(v)
      else None
  }

  /** The leftmost match at or after position `p`. */
  function FirstMatch(s: string, word: string, fraction: bool, p: nat): (r: Option<Decimal>)
    requires word != [] && p <= |s|
    ensures r.Some? ==> exists q :: p <= q < |s| && s[q] == word[0]
    decreases |s| - p
  {
    if p == |s| then None
    else
      match NumberBefore(s, p, word, fraction)
      case Some(v) => Some(v)
      case None => FirstMatch(s, word, fraction, p + 1)
  }

  // ---------------------------------------------------------------------------
  // parseDuration
  // ---------------------------------------------------------------------------

  /**
   * `parseDuration(str)`: the first `<number> hour` match in minutes plus the
   * first `<integer> min` match (`<number> min` when `decimalMinutes`), on the
   * lower-cased text; `None` unless the total is positive.
   */
  function ParseDurationWith(str: string, decimalMinutes: bool): (r: Option<Decimal>)
    ensures var s := LowerAscii(str);
            var hours := FirstMatch(s, "hour", true, 0);
            var minutes := FirstMatch(s, "min", decimalMinutes, 0);
            var total := Value(TimesSixty(hours.GetOr(Zero))) + Value(minutes.GetOr(Zero));
            && (r.Some? <==> total > 0.0)
            && (r.Some? ==> Value(r.value) == total)
  {
    var s := LowerAscii(str);
    var hours := TimesSixty(FirstMatch(s, "hour", true, 0).GetOr(Zero));
    var minutes := FirstMatch(s, "min", decimalMinutes, 0).GetOr(Zero);
    var total := Add(hours, minutes);
    PositiveValue(total);
    if total.units > 0 then Some(total) else None
  }

  /** The duration reader as the source writes it: minutes are whole. */
  function ParseDurationAsWritten(str: string): Option<Decimal> {
    ParseDurationWith(str, false)
  }

  /** The duration reader with decimal minutes, so that the app's own write-back reads back. */
  function ParseDuration(str: string): Option<Decimal> {
    ParseDurationWith(str, true)
  }

  // ---------------------------------------------------------------------------
  // parseTaskLine
  // ---------------------------------------------------------------------------

  /** A task as the file describes it. */
  datatype TaskSpec = TaskSpec(name: string, duration: Decimal)

  /**
   * Where the group `(.+)` starts when the tail `\s*-\s*(.+)$` of the line
   * pattern matches from position `k`. The first `\s*` must stop at the `-`.
   * The second is greedy and gives back a white-space character only when
   * nothing else is left for `(.+)`; `.` matches no line terminator, so the
   * group runs to the end of the line.
   */
  function GroupStart(s: string, k: nat): (r: Option<nat>)
    requires k <= |s|
    ensures r.Some? ==> k < r.value < |s| && SingleLineFrom(s, r.value)
    ensures r.Some? ==> exists a :: TailAt(s, k, a, r.value)
    ensures r.Some? ==> forall a, b :: TailAt(s, k, a, b) ==> b <= r.value
    ensures r.None? ==> forall a, b :: !TailAt(s, k, a, b)
  {
    var a := SkipSpaces(s, k);
    assert forall a', b :: TailAt(s, k, a', b) ==> a' == a by {
      TailDash(s, k, a);
    }
    if a == |s| || s[a] != '-' then None
    else
      var b := SkipSpaces(s, a + 1);
      assert forall a', b' :: TailAt(s, k, a', b') ==> b' <= b by {
        TailGroupEnd(s, k, a, b);
      }
      if b < |s| then
        if SingleLineFrom(s, b) then
          assert TailAt(s, k, a, b);
          Some(b)
        else None
      else if a + 1 < |s| && !IsLineTerminator(s[|s| - 1]) then
        assert TailAt(s, k, a, |s| - 1);
        Some(|s| - 1)
      else None
  }

  /**
   * `\s*-\s*(.+)$` matches from `k` with the dash at `a` and the group
   * starting at `b`: white space, the dash, white space, then one line to
   * the end.
   */
  predicate TailAt(s: string, k: nat, a: int, b: int) {
    && k <= a < b < |s| && s[a] == '-'
    && (forall i :: k <= i < a ==> IsSpace(s[i]))
    && (forall i :: a < i < b ==> IsSpace(s[i]))
    && SingleLineFrom(s, b)
  }

  /** The dash can only follow the white space `\s*` skips. */
  lemma TailDash(s: string, k: nat, a: nat)
    requires k <= |s| && a == SkipSpaces(s, k)
    ensures forall a', b :: TailAt(s, k, a', b) ==> a' == a
  {
    forall a', b | TailAt(s, k, a', b) ensures a' == a {
      assert !IsSpace(s[a']);
    }
  }

  /** The group cannot start after the white space that follows the dash. */
  lemma TailGroupEnd(s: string, k: nat, a: nat, b: nat)
    requires a < |s| && b == SkipSpaces(s, a + 1)
    ensures forall b' :: TailAt(s, k, a, b') ==> b' <= b
  {
  }

  /** `^(.+?)` can stop after `k` characters and the rest of the pattern match there. */
  predicate SplitsAt(s: string, k: nat) {
    1 <= k <= |s| && SingleLineBefore(s, k) && GroupStart(s, k).Some?
  }

  /** The lazy `(.+?)`: the shortest name candidate from `k` on for which the line matches. */
  function FirstSplit(s: string, k: nat): (r: Option<nat>)
    requires 1 <= k
    ensures r.Some? ==> k <= r.value && SplitsAt(s, r.value)
    ensures r.Some? ==> forall j :: k <= j < r.value ==> !SplitsAt(s, j)
    ensures r.None? ==> forall j :: k <= j <= |s| ==> !SplitsAt(s, j)
    decreases |s| + 1 - k
  {
    if k > |s| then None
    else if SplitsAt(s, k) then Some(k)
    else FirstSplit(s, k + 1)
  }

  /**
   * `parseTaskLine(line)`: split at the first place the pattern allows, trim
   * the name, read the duration from the trimmed group; `None` when the line
   * does not match or has no positive duration.
   */
  function ParseTaskLineWith(line: string, decimalMinutes: bool): (r: Option<TaskSpec>)
    ensures r.Some? <==>
              FirstSplit(line, 1).Some? && ParseDurationWith(DurationGroup(line, FirstSplit(line, 1).value), decimalMinutes).Some?
    ensures r.Some? ==>
              && r.value.name == Trim(line[..FirstSplit(line, 1).value])
              && Some(r.value.duration) == ParseDurationWith(DurationGroup(line, FirstSplit(line, 1).value), decimalMinutes)
              && Value(r.value.duration) > 0.0
  {
    match FirstSplit(line, 1)
    case None => None
    case Some(k) =>
      match ParseDurationWith(DurationGroup(line, k), decimalMinutes)
      case None => None
      case Some(d) => Some(TaskSpec(Trim(line[..k]), d))
  }

  /** The trimmed text of the group `(.+)` when the name stops after `k` characters. */
  function DurationGroup(line: string, k: nat): string
    requires SplitsAt(line, k)
  {
    Trim(line[GroupStart(line, k).value..])
  }

  function ParseTaskLineAsWritten(line: string): Option<TaskSpec> {
    ParseTaskLineWith(line, false)
  }

  function ParseTaskLine(line: string): Option<TaskSpec> {
    ParseTaskLineWith(line, true)
  }

  /** The parse of every line of the file, `null` where a line is skipped. */
  function LineResultsWith(text: string, decimalMinutes: bool): (r: seq<Option<TaskSpec>>)
    ensures |r| == |SplitLines(text)|
    ensures forall i :: 0 <= i < |r| ==> r[i] == ParseTaskLineWith(SplitLines(text)[i], decimalMinutes)
  {
    var lines := SplitLines(text);
    seq(|lines|, i requires 0 <= i < |lines| => ParseTaskLineWith(lines[i], decimalMinutes))
  }

  /** The numbers of the lines that parse, each once and in increasing order. */
  function AcceptedLines(text: string, decimalMinutes: bool): (idx: seq<nat>)
    ensures forall i :: 0 <= i < |idx| ==>
              idx[i] < |SplitLines(text)| && ParseTaskLineWith(SplitLines(text)[idx[i]], decimalMinutes).Some?
    ensures forall i, j :: 0 <= i < j < |idx| ==> idx[i] < idx[j]
    ensures forall k :: 0 <= k < |SplitLines(text)| && ParseTaskLineWith(SplitLines(text)[k], decimalMinutes).Some? ==>
              k in idx
  {
    var xs := LineResultsWith(text, decimalMinutes);
    assert forall k :: 0 <= k < |xs| ==> xs[k] == ParseTaskLineWith(SplitLines(text)[k], decimalMinutes);
    SomeIndices(xs)
  }

  /**
   * The lines that parse, in file order: the i-th task is the parse of the
   * i-th accepted line, so no line that parses is dropped, repeated or moved,
   * and every task comes from a line of the file.
   */
  function LoadTasksWith(text: string, decimalMinutes: bool): (r: seq<TaskSpec>)
    ensures forall i :: 0 <= i < |r| ==> Some(r[i]) in LineResultsWith(text, decimalMinutes)
    ensures forall k :: 0 <= k < |SplitLines(text)| && ParseTaskLineWith(SplitLines(text)[k], decimalMinutes).Some? ==>
              ParseTaskLineWith(SplitLines(text)[k], decimalMinutes).value in r
    ensures |r| == |AcceptedLines(text, decimalMinutes)|
    ensures forall i :: 0 <= i < |r| ==>
              r[i] == ParseTaskLineWith(SplitLines(text)[AcceptedLines(text, decimalMinutes)[i]], decimalMinutes).value
  {
    var xs := LineResultsWith(text, decimalMinutes);
    assert forall k :: 0 <= k < |xs| ==> xs[k] == ParseTaskLineWith(SplitLines(text)[k], decimalMinutes);
    SomesAtIndices(xs);
    Somes(xs)
  }

  /** `loadTasks`, with the source's own line reader. */
  function LoadTasks(text: string): seq<TaskSpec> {
    LoadTasksWith(text, false)
  }

  /** `loadTasks` with the reader that accepts decimal minutes. */
  function LoadTasksCorrected(text: string): seq<TaskSpec> {
    LoadTasksWith(text, true)
  }

  /** The file `loadTasks` creates when there is none. */
  const SampleTasks := "Sample Task - 5 min\nAnother Task - 10 min"

  // ---------------------------------------------------------------------------
  // Writing tasks back
  // ---------------------------------------------------------------------------

  /** `${name} - ${duration} min`. */
  function FormatTaskLine(t: TaskSpec): string {
    t.name + " - " + MinutesText(t.duration)
  }

  /** One written line per task. */
  function TaskLines(ts: seq<TaskSpec>): (r: seq<string>)
    ensures |r| == |ts| && forall i :: 0 <= i < |ts| ==> r[i] == FormatTaskLine(ts[i])
  {
    seq(|ts|, i requires 0 <= i < |ts| => FormatTaskLine(ts[i]))
  }

  /** The task file text `completeCurrentTask` writes: the lines joined, empty for no tasks. */
  function TasksText(ts: seq<TaskSpec>): string {
    if ts == [] then "" else JoinLines(TaskLines(ts))
  }

  // ---------------------------------------------------------------------------
  // Reading a written number back
  // ---------------------------------------------------------------------------

  /** `s` starts with `t`. */
  predicate StartsWith(s: string, t: string) {
    |t| <= |s| && forall i :: 0 <= i < |t| ==> s[i] == t[i]
  }

  /** A prefix given character by character is the slice. */
  lemma PrefixSlice(s: string, t: string, i: nat)
    requires StartsWith(s, t) && i <= |t|
    ensures s[0..i] == t[..i]
  {
  }

  /** A run of digits followed by a character that is neither a digit nor a point reads as its value. */
  lemma ReadDigits(whole: string, s: string, fraction: bool)
    requires whole != [] && AllDigits(whole)
    requires StartsWith(s, whole) && |whole| < |s|
    requires !IsDigit(s[|whole|]) && s[|whole|] != '.'
    ensures NumberAt(s, 0, fraction) == Some(Numeral(Decimal(DigitsValue(whole), 0), |whole|))
  {
    PrefixSlice(s, whole, |whole|);
    assert whole[..|whole|] == whole;
    DigitRunEndIs(s, 0, |whole|);
  }

  /** The value of `<whole>.<fraction>` read as one run of digits is the units of the decimal. */
  lemma FractionTextUnits(n: Decimal)
    requires n.scale > 0
    ensures var whole := NatToString(WholePart(n));
            var frac := FractionDigits(n);
            AllDigits(whole + frac) && DigitsValue(whole + frac) == n.units
  {
    var whole := NatToString(WholePart(n));
    var frac := FractionDigits(n);
    DigitsValueConcat(whole, frac);
    WholeAndFraction(n);
  }

  /** `<digits>.<digits>` followed by a non-digit reads as one number with the fraction's scale. */
  lemma ReadPointNumber(whole: string, frac: string, s: string)
    requires whole != [] && AllDigits(whole) && frac != [] && AllDigits(frac)
    requires StartsWith(s, whole + "." + frac) && |whole + "." + frac| < |s|
    requires !IsDigit(s[|whole + "." + frac|])
    ensures AllDigits(whole + frac)
    ensures NumberAt(s, 0, true) ==
              Some(Numeral(Decimal(DigitsValue(whole + frac), |frac|), |whole| + 1 + |frac|))
  {
    var t := whole + "." + frac;
    var e := |whole|;
    var e2 := e + 1 + |frac|;
    assert s[0..e] == whole && s[e] == '.' && s[e + 1] == frac[0];
    assert s[e + 1..e2] == frac;
    DigitRunEndIs(s, 0, e);
    DigitRunEndIs(s, e + 1, e2);
    AllDigitsConcat(whole, frac);
  }

  /** A whole number's text followed by a character that is neither a digit nor a point reads back as it. */
  lemma ReadWholeText(d: Decimal, s: string, fraction: bool)
    requires Normalize(d).scale == 0
    requires StartsWith(s, NumberText(d)) && |NumberText(d)| < |s|
    requires !IsDigit(s[|NumberText(d)|]) && s[|NumberText(d)|] != '.'
    ensures NumberAt(s, 0, fraction) == Some(Numeral(Normalize(d), |NumberText(d)|))
  {
    NumberTextShape(d);
    ReadDigits(NatToString(Normalize(d).units), s, fraction);
  }

  /** A fractional number's text followed by a non-digit reads back as it. */
  lemma ReadFractionText(d: Decimal, s: string)
    requires Normalize(d).scale > 0
    requires StartsWith(s, NumberText(d)) && |NumberText(d)| < |s|
    requires !IsDigit(s[|NumberText(d)|])
    ensures NumberAt(s, 0, true) == Some(Numeral(Normalize(d), |NumberText(d)|))
  {
    var n := Normalize(d);
    NumberTextShape(d);
    ReadPointNumber(NatToString(WholePart(n)), FractionDigits(n), s);
    FractionTextUnits(n);
  }

  /** `String(x)` followed by a character that is neither a digit nor a point reads back as `x`. */
  lemma ReadNumberText(d: Decimal, s: string, fraction: bool)
    requires fraction || Normalize(d).scale == 0
    requires StartsWith(s, NumberText(d)) && |NumberText(d)| < |s|
    requires !IsDigit(s[|NumberText(d)|]) && s[|NumberText(d)|] != '.'
    ensures NumberAt(s, 0, fraction) == Some(Numeral(Normalize(d), |NumberText(d)|))
  {
    if Normalize(d).scale == 0 {
      ReadWholeText(d, s, fraction);
    } else {
      ReadFractionText(d, s);
    }
  }

  // ---------------------------------------------------------------------------
  // Reading a written duration back
  // ---------------------------------------------------------------------------

  /** Where the leftmost match is when no earlier position gives one. */
  lemma {:induction false} FirstMatchSkip(s: string, word: string, fraction: bool, p: nat, m: nat)
    requires word != [] && p <= m < |s|
    requires forall q :: p <= q < m ==> NumberBefore(s, q, word, fraction).None?
    ensures FirstMatch(s, word, fraction, p) == FirstMatch(s, word, fraction, m)
    decreases m - p
  {
    if p < m {
      FirstMatchSkip(s, word, fraction, p + 1, m);
    }
  }

  /** A word whose first letter the text lacks is not found. */
  lemma FirstMatchAbsent(s: string, word: string, fraction: bool)
    requires word != [] && word[0] !in s
    ensures FirstMatch(s, word, fraction, 0) == None
  {
  }

  /** The characters a written duration is made of. */
  predicate PlainChar(c: char) {
    IsDigit(c) || c == '.' || c == ' ' || 'a' <= c <= 'z'
  }

  lemma LowerOfPlain(g: string)
    requires forall i :: 0 <= i < |g| ==> PlainChar(g[i])
    ensures LowerAscii(g) == g
  {
  }

  /** Plain characters are not line terminators. */
  lemma PlainSingleLine(g: string)
    requires forall i :: 0 <= i < |g| ==> PlainChar(g[i])
    ensures SingleLine(g)
  {
  }

  /** The unit the write-back uses. */
  const MinutesUnit := " min"

  /** The unit of a duration given in hours. */
  const HoursUnit := " hours"

  /** `String(x) min`. */
  function MinutesText(d: Decimal): string {
    NumberText(d) + MinutesUnit
  }

  /** `String(x) hours`. */
  function HoursText(d: Decimal): string {
    NumberText(d) + HoursUnit
  }

  /**
   * A unit as the durations spell it: a space, then `word`, in plain
   * characters none of which is `letter`, the first letter of the other unit.
   */
  predicate UnitOf(unit: string, word: string, letter: char) {
    && |unit| >= 2 && unit[0] == ' ' && !IsSpace(unit[1]) && !IsSpace(unit[|unit| - 1])
    && word != [] && WordAt(unit, 1, word)
    && (forall i :: 0 <= i < |unit| ==> PlainChar(unit[i]) && unit[i] != letter)
    && !IsDigit(letter) && letter != '.'
  }

  lemma UnitsSpelled()
    ensures UnitOf(MinutesUnit, "min", 'h')
    ensures UnitOf(HoursUnit, "hour", 'm')
  {
  }

  /** `<number><unit>`, character by character. */
  lemma UnitLayout(t: string, unit: string)
    ensures var g := t + unit;
            && StartsWith(g, t) && |g| == |t| + |unit|
            && forall i :: 0 <= i < |unit| ==> g[|t| + i] == unit[i]
  {
  }

  /** `<number><unit>` starts with the number, then the unit's space. */
  lemma UnitStart(t: string, unit: string)
    requires unit != [] && unit[0] == ' '
    ensures var g := t + unit;
            StartsWith(g, t) && |t| < |g| && g[|t|] == ' '
  {
  }

  /** Every character of `<number><unit>` is plain and none is `letter`. */
  lemma UnitChars(t: string, unit: string, word: string, letter: char)
    requires NumeralChars(t) && UnitOf(unit, word, letter)
    ensures var g := t + unit;
            forall i :: 0 <= i < |g| ==> PlainChar(g[i]) && g[i] != letter
  {
    var g := t + unit;
    forall i | 0 <= i < |g| ensures PlainChar(g[i]) && g[i] != letter {
      if i < |t| {
        assert g[i] == t[i];
      } else {
        assert g[i] == unit[i - |t|];
      }
    }
  }

  /** `<number><unit>` lacks `letter`, is lower case, one line, its own trim, and starts with a digit. */
  lemma UnitPlain(t: string, unit: string, word: string, letter: char)
    requires NumeralChars(t) && UnitOf(unit, word, letter)
    ensures var g := t + unit;
            && letter !in g && LowerAscii(g) == g && SingleLine(g) && Trim(g) == g
            && IsDigit(g[0])
  {
    var g := t + unit;
    UnitChars(t, unit, word, letter);
    LowerOfPlain(g);
    PlainSingleLine(g);
    assert g[0] == t[0] && g[|g| - 1] == unit[|unit| - 1];
    TrimOfTrimmed(g);
  }

  /** A number read at `p`, white space up to `q`, and `word` at `q`: the number is the one before the word. */
  lemma NumberBeforeWord(s: string, p: nat, word: string, fraction: bool, v: Decimal, e: nat, q: nat)
    requires p <= |s| && word != []
    requires NumberAt(s, p, fraction) == Some(Numeral(v, e))
    requires SkipSpaces(s, e) == q && WordAt(s, q, word)
    ensures NumberBefore(s, p, word, fraction) == Some(v)
  {
  }

  /** After a number's text, the unit's space is skipped and its word follows. */
  lemma WordAfterNumber(t: string, unit: string, word: string)
    requires |unit| >= 2 && unit[0] == ' ' && !IsSpace(unit[1])
    requires word != [] && WordAt(unit, 1, word)
    ensures SkipSpaces(t + unit, |t|) == |t| + 1 && WordAt(t + unit, |t| + 1, word)
  {
    var g := t + unit;
    UnitLayout(t, unit);
    assert g[|t|] == unit[0] && g[|t| + 1] == unit[1];
    SkipSpacesIs(g, |t|, |t| + 1);
    forall k | 0 <= k < |word| ensures g[|t| + 1 + k] == word[k] {
      assert g[|t| + 1 + k] == unit[1 + k];
    }
  }

  /** In `String(x)<unit>` the reader finds `x` before the unit's word. */
  lemma UnitTextFinds(d: Decimal, unit: string, word: string, fraction: bool)
    requires fraction || Normalize(d).scale == 0
    requires |unit| >= 2 && unit[0] == ' ' && !IsSpace(unit[1])
    requires word != [] && WordAt(unit, 1, word)
    ensures FirstMatch(NumberText(d) + unit, word, fraction, 0) == Some(Normalize(d))
  {
    var t := NumberText(d);
    UnitStart(t, unit);
    ReadNumberText(d, t + unit, fraction);
    WordAfterNumber(t, unit, word);
    NumberBeforeWord(t + unit, 0, word, fraction, Normalize(d), |t|, |t| + 1);
  }

  /**
   * In `String(x)<unit>` the reader finds `x` before the unit's word, and
   * nothing before the other unit's word.
   */
  lemma UnitTextMatches(d: Decimal, unit: string, word: string, other: string, fraction: bool, otherFraction: bool)
    requires fraction || Normalize(d).scale == 0
    requires other != [] && UnitOf(unit, word, other[0])
    ensures var g := NumberText(d) + unit;
            && LowerAscii(g) == g
            && FirstMatch(g, word, fraction, 0) == Some(Normalize(d))
            && FirstMatch(g, other, otherFraction, 0) == None
  {
    UnitPlain(NumberText(d), unit, word, other[0]);
    UnitTextFinds(d, unit, word, fraction);
    FirstMatchAbsent(NumberText(d) + unit, other, otherFraction);
  }

  /** The duration when only minutes are found. */
  lemma DurationOfMinutes(str: string, decimalMinutes: bool, v: Decimal)
    requires LowerAscii(str) == str && v.units > 0
    requires FirstMatch(str, "hour", true, 0) == None
    requires FirstMatch(str, "min", decimalMinutes, 0) == Some(v)
    ensures ParseDurationWith(str, decimalMinutes) == Some(v)
  {
    assert TimesSixty(Zero) == Zero;
  }

  /** The duration when only hours are found: sixty minutes to the hour. */
  lemma DurationOfHours(str: string, decimalMinutes: bool, v: Decimal)
    requires LowerAscii(str) == str && v.units > 0
    requires FirstMatch(str, "hour", true, 0) == Some(v)
    requires FirstMatch(str, "min", decimalMinutes, 0) == None
    ensures var r := ParseDurationWith(str, decimalMinutes);
            r.Some? && Value(r.value) == 60.0 * Value(v)
  {
    assert Zero == Whole(0);
  }

  /**
   * `String(x) min` reads back as `x` minutes through the reader with decimal
   * minutes, and through the source's reader when `x` is whole.
   */
  lemma MinutesTextReads(d: Decimal, decimalMinutes: bool)
    requires d.units > 0
    requires decimalMinutes || Normalize(d).scale == 0
    ensures ParseDurationWith(MinutesText(d), decimalMinutes) == Some(Normalize(d))
  {
    UnitsSpelled();
    UnitTextMatches(d, MinutesUnit, "min", "hour", decimalMinutes, true);
    DurationOfMinutes(MinutesText(d), decimalMinutes, Normalize(d));
  }

  /** `String(x) hours` reads as sixty times `x` minutes, through either reader. */
  lemma HoursTextReads(d: Decimal, decimalMinutes: bool)
    requires d.units > 0
    ensures var r := ParseDurationWith(HoursText(d), decimalMinutes);
            r.Some? && Value(r.value) == 60.0 * Value(d)
  {
    UnitsSpelled();
    UnitTextMatches(d, HoursUnit, "hour", "min", true, decimalMinutes);
    DurationOfHours(HoursText(d), decimalMinutes, Normalize(d));
  }

  // ---------------------------------------------------------------------------
  // Reading a written task line back
  // ---------------------------------------------------------------------------

  /**
   * A name the write-back can carry: one line, no white space at either end,
   * and no `-` after its first character (the lazy name group would stop there).
   */
  predicate WellFormedName(name: string) {
    && name != [] && SingleLine(name)
    && !IsSpace(name[0]) && !IsSpace(name[|name| - 1])
    && forall i :: 1 <= i < |name| ==> name[i] != '-'
  }

  predicate WellFormedTask(t: TaskSpec) {
    WellFormedName(t.name) && t.duration.units > 0
  }

  /** `name - g`, character by character. */
  lemma LineLayout(name: string, g: string)
    ensures var line := name + " - " + g;
            var n := |name|;
            && StartsWith(line, name) && |line| == n + 3 + |g|
            && line[n] == ' ' && line[n + 1] == '-' && line[n + 2] == ' '
            && line[..n] == name && line[n + 3..] == g
  {
  }

  /** The line from `name - ` on is one line when the group is. */
  lemma LineTailSingle(name: string, g: string)
    requires SingleLine(g)
    ensures SingleLineFrom(name + " - " + g, |name| + 3)
  {
    var line := name + " - " + g;
    forall k | |name| + 3 <= k < |line| ensures !IsLineTerminator(line[k]) {
      assert line[k] == g[k - |name| - 3];
    }
  }

  /** Inside a well-formed name the pattern finds no `-` after the white space it skips. */
  lemma NoSplitInsideName(line: string, n: nat, j: nat)
    requires 1 <= j < n <= |line|
    requires !IsSpace(line[n - 1])
    requires forall i :: 1 <= i < n ==> line[i] != '-'
    ensures GroupStart(line, j) == None
  {
    assert SkipSpaces(line, j) < n;
  }

  /** ` - ` followed by a non-space character: the group starts right after it. */
  lemma SplitAtSeparator(line: string, n: nat)
    requires n + 3 < |line| && line[n] == ' ' && line[n + 1] == '-' && line[n + 2] == ' '
    requires !IsSpace(line[n + 3]) && SingleLineFrom(line, n + 3)
    ensures GroupStart(line, n) == Some(n + 3)
  {
    SkipSpacesIs(line, n, n + 1);
    SkipSpacesIs(line, n + 2, n + 3);
  }

  /** The first split the pattern allows is the one at `n` when no earlier one is. */
  lemma FirstSplitIs(line: string, n: nat)
    requires 1 <= n && SplitsAt(line, n)
    requires forall j :: 1 <= j < n ==> !SplitsAt(line, j)
    ensures FirstSplit(line, 1) == Some(n)
  {
    var r := FirstSplit(line, 1);
    if r.None? || r.value > n {
      assert false;
    }
  }

  /** A well-formed name's characters as the line's first characters. */
  lemma NameInLine(name: string, line: string)
    requires WellFormedName(name) && StartsWith(line, name)
    ensures SingleLineBefore(line, |name|) && !IsSpace(line[|name| - 1])
    ensures forall i :: 1 <= i < |name| ==> line[i] != '-'
  {
  }

  /**
   * `name - g` splits right after the name, and the group is `g`, when the
   * group is one line starting with a non-space character.
   */
  lemma SplitsAfterName(name: string, g: string)
    requires WellFormedName(name)
    requires g != [] && !IsSpace(g[0]) && SingleLine(g)
    ensures var line := name + " - " + g;
            && FirstSplit(line, 1) == Some(|name|)
            && GroupStart(line, |name|) == Some(|name| + 3)
            && line[..|name|] == name && line[|name| + 3..] == g
  {
    var line := name + " - " + g;
    var n := |name|;
    LineLayout(name, g);
    LineTailSingle(name, g);
    assert line[n + 3] == g[0];
    SplitAtSeparator(line, n);
    NameInLine(name, line);
    forall j | 1 <= j < n ensures !SplitsAt(line, j) {
      NoSplitInsideName(line, n, j);
    }
    FirstSplitIs(line, n);
  }

  /**
   * The task line the app writes back parses to the same name and the same
   * duration (in its shortest form), with the reader given decimal minutes or
   * with a whole number of minutes.
   */
  lemma TaskLineRoundTripWith(t: TaskSpec, decimalMinutes: bool)
    requires WellFormedTask(t)
    requires decimalMinutes || Normalize(t.duration).scale == 0
    ensures ParseTaskLineWith(FormatTaskLine(t), decimalMinutes) == Some(TaskSpec(t.name, Normalize(t.duration)))
  {
    var g := MinutesText(t.duration);
    MinutesTextShape(t.duration);
    MinutesTextReads(t.duration, decimalMinutes);
    TaskLineOf(t.name, g, decimalMinutes, Normalize(t.duration));
  }

  /** `String(x) min` is one line, its own trim, and starts with a digit. */
  lemma MinutesTextShape(d: Decimal)
    ensures var g := MinutesText(d);
            g != [] && IsDigit(g[0]) && SingleLine(g) && Trim(g) == g
  {
    UnitsSpelled();
    UnitPlain(NumberText(d), MinutesUnit, "min", 'h');
  }

  /** `name - g` parses to the name and the duration `g` reads as. */
  lemma TaskLineOf(name: string, g: string, decimalMinutes: bool, v: Decimal)
    requires WellFormedName(name)
    requires g != [] && IsDigit(g[0]) && SingleLine(g) && Trim(g) == g
    requires ParseDurationWith(g, decimalMinutes) == Some(v)
    ensures ParseTaskLineWith(name + " - " + g, decimalMinutes) == Some(TaskSpec(name, v))
  {
    SplitsAfterName(name, g);
    TrimOfTrimmed(name);
  }

  /** The write-back reads back through the reader that accepts decimal minutes. */
  lemma TaskLineRoundTrip(t: TaskSpec)
    requires WellFormedTask(t)
    ensures ParseTaskLine(FormatTaskLine(t)) == Some(TaskSpec(t.name, Normalize(t.duration)))
  {
    TaskLineRoundTripWith(t, true);
  }

  /** Whole minutes survive the write-back even with the source's reader. */
  lemma TaskLineRoundTripAsWritten(t: TaskSpec)
    requires WellFormedTask(t) && Normalize(t.duration).scale == 0
    ensures ParseTaskLineAsWritten(FormatTaskLine(t)) == Some(TaskSpec(t.name, Normalize(t.duration)))
  {
    TaskLineRoundTripWith(t, false);
  }

  /** A task given in hours reads as sixty minutes to the hour. */
  lemma HoursLineReads(name: string, d: Decimal, decimalMinutes: bool)
    requires WellFormedName(name) && d.units > 0
    ensures var r := ParseTaskLineWith(name + " - " + HoursText(d), decimalMinutes);
            r.Some? && r.value.name == name && Value(r.value.duration) == 60.0 * Value(d)
  {
    var g := HoursText(d);
    HoursTextShape(d);
    HoursTextReads(d, decimalMinutes);
    TaskLineOf(name, g, decimalMinutes, ParseDurationWith(g, decimalMinutes).value);
  }

  /** `String(x) hours` is one line, its own trim, and starts with a digit. */
  lemma HoursTextShape(d: Decimal)
    ensures var g := HoursText(d);
            g != [] && IsDigit(g[0]) && SingleLine(g) && Trim(g) == g
  {
    UnitsSpelled();
    UnitPlain(NumberText(d), HoursUnit, "hour", 'm');
  }

  // ---------------------------------------------------------------------------
  // The source's reader on a fractional write-back
  // ---------------------------------------------------------------------------

  /** `<whole>.<fraction> min`, character by character. */
  lemma PointMinutesLayout(whole: string, frac: string)
    requires AllDigits(whole) && frac != [] && AllDigits(frac)
    ensures PointMinutes(whole + "." + frac + MinutesUnit, |whole|, frac)
  {
    var g := whole + "." + frac + MinutesUnit;
    assert forall k :: 0 <= k < |whole| ==> g[k] == whole[k];
    UnitsSpelled();
    WordAfterNumber(whole + "." + frac, MinutesUnit, "min");
  }

  /** Starting inside the whole digits, `\d+` stops at the point, so no `min` follows. */
  lemma NoMinutesInWhole(g: string, q: nat, w: nat)
    requires q < w < |g| && g[w] == '.'
    requires forall k :: q <= k < w ==> IsDigit(g[k])
    ensures NumberBefore(g, q, "min", false).None?
  {
    DigitRunEndIs(g, q, w);
    SkipSpacesIs(g, w, w);
  }

  /** Starting at the point, there is no number. */
  lemma NoMinutesAtPoint(g: string, w: nat)
    requires w < |g| && g[w] == '.'
    ensures NumberBefore(g, w, "min", false).None?
  {
    DigitRunEndIs(g, w, w);
  }

  /**
   * `g` holds digits up to a point at `w`, then the fraction digits `frac`, a
   * space, and `min`.
   */
  predicate PointMinutes(g: string, w: nat, frac: string) {
    && frac != [] && AllDigits(frac)
    && w + 1 + |frac| < |g| && g[w] == '.' && g[w + 1 + |frac|] == ' '
    && (forall k :: 0 <= k < w ==> IsDigit(g[k]))
    && (forall i :: 0 <= i < |frac| ==> g[w + 1 + i] == frac[i])
    && SkipSpaces(g, w + 1 + |frac|) == w + 2 + |frac| && WordAt(g, w + 2 + |frac|, "min")
  }

  /** No match starts in the whole digits or at the point. */
  lemma NoMinutesBeforeFraction(g: string, w: nat, frac: string)
    requires PointMinutes(g, w, frac)
    ensures forall q :: 0 <= q < w + 1 ==> NumberBefore(g, q, "min", false).None?
  {
    forall q | 0 <= q < w + 1 ensures NumberBefore(g, q, "min", false).None? {
      if q < w {
        NoMinutesInWhole(g, q, w);
      } else {
        NoMinutesAtPoint(g, w);
      }
    }
  }

  /** Starting right after the point, the fraction digits are the number before `min`. */
  lemma MinutesAfterPoint(g: string, w: nat, frac: string)
    requires PointMinutes(g, w, frac)
    ensures NumberBefore(g, w + 1, "min", false) == Some(Decimal(DigitsValue(frac), 0))
  {
    var e := w + 1 + |frac|;
    FractionRun(g, frac, w + 1);
    NumberBeforeWord(g, w + 1, "min", false, Decimal(DigitsValue(frac), 0), e, e + 1);
  }

  /** The fraction digits, followed by a space, are the number read right after the point. */
  lemma FractionRun(g: string, frac: string, b: nat)
    requires frac != [] && AllDigits(frac)
    requires b + |frac| < |g| && g[b + |frac|] == ' '
    requires forall i :: 0 <= i < |frac| ==> g[b + i] == frac[i]
    ensures NumberAt(g, b, false) == Some(Numeral(Decimal(DigitsValue(frac), 0), b + |frac|))
  {
    var e := b + |frac|;
    forall k | b <= k < e ensures IsDigit(g[k]) {
      assert g[k] == frac[k - b];
    }
    DigitRunEndIs(g, b, e);
    assert g[b..e] == frac;
  }

  /** The leftmost match is the one at `p` when one starts there. */
  lemma FirstMatchHere(s: string, word: string, fraction: bool, p: nat)
    requires word != [] && p < |s| && NumberBefore(s, p, word, fraction).Some?
    ensures FirstMatch(s, word, fraction, p) == NumberBefore(s, p, word, fraction)
  {
  }

  /**
   * The source's `(\d+)\s*min` on digits, a point, the fraction digits and
   * ` min`: the leftmost match is the fraction digits, read as whole minutes.
   */
  lemma PointMinutesAt(g: string, w: nat, frac: string)
    requires PointMinutes(g, w, frac)
    ensures FirstMatch(g, "min", false, 0) == Some(Decimal(DigitsValue(frac), 0))
  {
    NoMinutesBeforeFraction(g, w, frac);
    FirstMatchSkip(g, "min", false, 0, w + 1);
    MinutesAfterPoint(g, w, frac);
    FirstMatchHere(g, "min", false, w + 1);
  }

  lemma PointMinutesAsWritten(whole: string, frac: string)
    requires whole != [] && AllDigits(whole) && frac != [] && AllDigits(frac)
    ensures FirstMatch(whole + "." + frac + MinutesUnit, "min", false, 0) == Some(Decimal(DigitsValue(frac), 0))
  {
    PointMinutesLayout(whole, frac);
    PointMinutesAt(whole + "." + frac + MinutesUnit, |whole|, frac);
  }

  /** A normal decimal with a fraction has non-zero fraction digits. */
  lemma FractionPartPositive(n: Decimal)
    requires Normal(n) && n.scale > 0
    ensures FractionPart(n) > 0
  {
    var p := Pow10(n.scale - 1);
    WholeAndFraction(n);
    if FractionPart(n) == 0 {
      TensMultiple(WholePart(n), p);
    }
  }

  lemma TensMultiple(w: nat, p: nat)
    ensures (w * (10 * p)) % 10 == 0
  {
    assert w * (10 * p) == 10 * (w * p);
  }

  /**
   * With the source's reader, `String(x) min` for a fractional `x` reads as
   * the digits after the point, in whole minutes.
   */
  lemma FractionMinutesAsWritten(d: Decimal)
    requires Normalize(d).scale > 0
    ensures ParseDurationAsWritten(MinutesText(d)) == Some(Decimal(FractionPart(Normalize(d)), 0))
  {
    var n := Normalize(d);
    NumberTextShape(d);
    PointMinutesAsWritten(NatToString(WholePart(n)), FractionDigits(n));
    FractionPartPositive(n);
    UnitsSpelled();
    UnitPlain(NumberText(d), MinutesUnit, "min", 'h');
    FirstMatchAbsent(MinutesText(d), "hour", true);
    DurationOfMinutes(MinutesText(d), false, Decimal(FractionPart(n), 0));
  }

  /**
   * The write-back of a task with a fractional minute count, read by the
   * source's reader, keeps the name but takes the digits after the point as
   * the minutes.
   */
  lemma TaskLineAsWrittenFraction(t: TaskSpec)
    requires WellFormedTask(t) && Normalize(t.duration).scale > 0
    ensures ParseTaskLineAsWritten(FormatTaskLine(t)) ==
              Some(TaskSpec(t.name, Decimal(FractionPart(Normalize(t.duration)), 0)))
  {
    MinutesTextShape(t.duration);
    FractionMinutesAsWritten(t.duration);
    TaskLineOf(t.name, MinutesText(t.duration), false, Decimal(FractionPart(Normalize(t.duration)), 0));
  }

  /** The task of the example: `Read`, seven and a half minutes. */
  lemma ExampleTask(t: TaskSpec)
    requires t == TaskSpec("Read", Decimal(75, 1))
    ensures WellFormedTask(t) && Normalize(t.duration) == t.duration
    ensures FractionPart(t.duration) == 5 && t.duration.scale == 1
    ensures Value(Decimal(125, 3)) * 60.0 == Value(t.duration)
  {
  }

  /**
   * `Read - 0.125 hours` is seven and a half minutes; the app writes it back
   * as `Read - 7.5 min`, which the source's reader takes as 5 minutes and the
   * corrected reader as 7.5.
   */
  lemma FractionalWriteBackExample(t: TaskSpec)
    requires t == TaskSpec("Read", Decimal(75, 1))
    ensures ParseTaskLineAsWritten(FormatTaskLine(t)) == Some(TaskSpec("Read", Whole(5)))
    ensures ParseTaskLine(FormatTaskLine(t)) == Some(t)
  {
    ExampleTask(t);
    TaskLineAsWrittenFraction(t);
    TaskLineRoundTrip(t);
  }

  /**
   * A name with a `-` after its first character does not survive the
   * write-back: the lazy name group stops at that dash at the latest, so the
   * line reads back, if at all, under a shorter name.
   */
  lemma DashedNameShortens(t: TaskSpec, j: nat, decimalMinutes: bool)
    requires SingleLine(t.name) && 1 <= j < |t.name| && t.name[j] == '-'
    ensures var r := ParseTaskLineWith(FormatTaskLine(t), decimalMinutes);
            r.Some? ==> |r.value.name| <= j < |t.name|
  {
    var line := FormatTaskLine(t);
    var g := MinutesText(t.duration);
    MinutesTextShape(t.duration);
    FormatSingleLine(t);
    assert line[j] == t.name[j];
    assert line[|line| - 1] == g[|g| - 1];
    assert !IsSpace(line[|line| - 1]);
    var b := SkipSpaces(line, j + 1);
    assert TailAt(line, j, j, b);
    assert SplitsAt(line, j);
    var k := FirstSplit(line, 1).value;
    assert k <= j;
  }

  /**
   * A line break right after the separator's dash keeps the group `(.+)` from
   * starting inside the name, so `name -<CR>N min` loads under the whole name,
   * dashes and all (the `\r` is white space to `\s*`).
   */
  lemma CarriageReturnAfterDash(name: string, d: Decimal, decimalMinutes: bool)
    requires name != [] && SingleLine(name) && !IsSpace(name[0]) && !IsSpace(name[|name| - 1]) && name[|name| - 1] != '-'
    requires d.units > 0 && (decimalMinutes || Normalize(d).scale == 0)
    ensures ParseTaskLineWith(name + " -\r" + MinutesText(d), decimalMinutes) == Some(TaskSpec(name, Normalize(d)))
  {
    MinutesTextShape(d);
    MinutesTextReads(d, decimalMinutes);
    BreakLineOf(name, MinutesText(d), decimalMinutes, Normalize(d));
  }

  /** `name -<CR>g` parses to the name and the duration `g` reads as. */
  lemma BreakLineOf(name: string, g: string, decimalMinutes: bool, v: Decimal)
    requires name != [] && SingleLine(name) && !IsSpace(name[0]) && !IsSpace(name[|name| - 1]) && name[|name| - 1] != '-'
    requires g != [] && IsDigit(g[0]) && SingleLine(g) && Trim(g) == g
    requires ParseDurationWith(g, decimalMinutes) == Some(v)
    ensures ParseTaskLineWith(name + " -\r" + g, decimalMinutes) == Some(TaskSpec(name, v))
  {
    BreakSplitsAfterName(name, g);
    TrimOfTrimmed(name);
  }

  /** `name -<CR>g` splits right after the name, and the group is `g`. */
  lemma BreakSplitsAfterName(name: string, g: string)
    requires name != [] && SingleLine(name) && !IsSpace(name[|name| - 1]) && name[|name| - 1] != '-'
    requires g != [] && !IsSpace(g[0]) && SingleLine(g)
    ensures var line := name + " -\r" + g;
            && FirstSplit(line, 1) == Some(|name|)
            && GroupStart(line, |name|) == Some(|name| + 3)
            && line[..|name|] == name && line[|name| + 3..] == g
  {
    var line := name + " -\r" + g;
    var n := |name|;
    assert line[..n] == name && line[n + 3..] == g;
    assert line[n] == ' ' && line[n + 1] == '-' && line[n + 2] == '\r';
    assert line[n - 1] == name[n - 1] && line[n + 3] == g[0];
    assert SingleLineFrom(line, n + 3) by {
      forall k | n + 3 <= k < |line| ensures !IsLineTerminator(line[k]) {
        assert line[k] == g[k - n - 3];
      }
    }
    assert SingleLineBefore(line, n) by {
      forall k | 0 <= k < n ensures !IsLineTerminator(line[k]) {
        assert line[k] == name[k];
      }
    }
    SplitAfterBreak(line, n);
    forall j | 1 <= j < n ensures !SplitsAt(line, j) {
      NoSplitBeforeBreak(line, n, j);
    }
    FirstSplitIs(line, n);
  }

  /** ` -<CR>` followed by a non-space character: the group starts right after it. */
  lemma SplitAfterBreak(line: string, n: nat)
    requires n + 3 < |line| && line[n] == ' ' && line[n + 1] == '-' && line[n + 2] == '\r'
    requires !IsSpace(line[n + 3]) && SingleLineFrom(line, n + 3)
    ensures GroupStart(line, n) == Some(n + 3)
  {
    SkipSpacesIs(line, n, n + 1);
    SkipSpacesIs(line, n + 2, n + 3);
  }

  /** Before a name ending in a non-space, non-dash character, any group would run into the break. */
  lemma NoSplitBeforeBreak(line: string, n: nat, j: nat)
    requires 1 <= j < n && n + 2 < |line|
    requires !IsSpace(line[n - 1]) && line[n - 1] != '-' && IsLineTerminator(line[n + 2])
    ensures GroupStart(line, j) == None
  {
    var a := SkipSpaces(line, j);
    assert a < n;
    if line[a] == '-' {
      var b := SkipSpaces(line, a + 1);
      assert b < n;
      assert !SingleLineFrom(line, b);
    }
  }

  /** The task of the dashed-name example: `a-b`, five minutes. */
  lemma DashedTask(t: TaskSpec)
    requires t == TaskSpec("a-b", Whole(5))
    ensures SingleLine(t.name) && !IsSpace(t.name[0]) && !IsSpace(t.name[2]) && t.name[2] != '-'
    ensures |t.name| == 3 && t.name[1] == '-'
    ensures t.duration.units > 0 && Normalize(t.duration) == t.duration && t.duration.scale == 0
  {
  }

  /**
   * The dashed name is not only hypothetical: `a-b -<CR>5 min` loads as the
   * task `a-b`, and its write-back `a-b - 5 min` does not read back as it.
   */
  lemma DashedNameExample(t: TaskSpec, decimalMinutes: bool)
    requires t == TaskSpec("a-b", Whole(5))
    ensures ParseTaskLineWith(t.name + " -\r" + MinutesText(t.duration), decimalMinutes) == Some(t)
    ensures ParseTaskLineWith(FormatTaskLine(t), decimalMinutes) != Some(t)
  {
    DashedTask(t);
    CarriageReturnAfterDash(t.name, t.duration, decimalMinutes);
    DashedNameShortens(t, 1, decimalMinutes);
  }

  // ---------------------------------------------------------------------------
  // Whole files
  // ---------------------------------------------------------------------------

  /** A written task line is one line. */
  lemma FormatSingleLine(t: TaskSpec)
    requires SingleLine(t.name)
    ensures SingleLine(FormatTaskLine(t))
  {
    MinutesTextShape(t.duration);
    SingleLineConcat(t.name, " - ");
    SingleLineConcat(t.name + " - ", MinutesText(t.duration));
  }

  /** The queue as it reads back: same names, durations in shortest form. */
  function Normalized(ts: seq<TaskSpec>): (r: seq<TaskSpec>)
    ensures |r| == |ts|
    ensures forall i :: 0 <= i < |ts| ==> r[i] == TaskSpec(ts[i].name, Normalize(ts[i].duration))
  {
    seq(|ts|, i requires 0 <= i < |ts| => TaskSpec(ts[i].name, Normalize(ts[i].duration)))
  }

  /** An empty file holds one empty line, which is skipped. */
  lemma LoadEmpty(decimalMinutes: bool)
    ensures LoadTasksWith("", decimalMinutes) == []
  {
    assert SplitLines("") == [""];
    assert LineResultsWith("", decimalMinutes) == [None];
    assert Somes([None]) == Somes<TaskSpec>([]);
  }

  /** The written file splits back into the written lines. */
  lemma TasksTextLines(ts: seq<TaskSpec>)
    requires ts != [] && forall i :: 0 <= i < |ts| ==> SingleLine(ts[i].name)
    ensures SplitLines(TasksText(ts)) == TaskLines(ts)
  {
    var lines := TaskLines(ts);
    forall i | 0 <= i < |lines| ensures '\n' !in lines[i] {
      FormatSingleLine(ts[i]);
    }
    SplitJoin(lines);
  }

  /** Whole minutes in shortest form: what the source's reader reads back unchanged. */
  predicate WholeMinuteTasks(ts: seq<TaskSpec>) {
    forall i :: 0 <= i < |ts| ==> Normalize(ts[i].duration).scale == 0
  }

  /** Every line of the written file parses, to its task. */
  lemma TasksTextResults(ts: seq<TaskSpec>, decimalMinutes: bool)
    requires ts != [] && forall i :: 0 <= i < |ts| ==> WellFormedTask(ts[i])
    requires decimalMinutes || WholeMinuteTasks(ts)
    ensures var xs := LineResultsWith(TasksText(ts), decimalMinutes);
            |xs| == |ts| && forall i :: 0 <= i < |xs| ==> xs[i] == Some(Normalized(ts)[i])
  {
    TasksTextLines(ts);
    forall i | 0 <= i < |ts| ensures ParseTaskLineWith(TaskLines(ts)[i], decimalMinutes) == Some(Normalized(ts)[i]) {
      TaskLineRoundTripWith(ts[i], decimalMinutes);
    }
  }

  /** The written file loads back as the queue that was written, durations in shortest form. */
  lemma LoadTasksTextWith(ts: seq<TaskSpec>, decimalMinutes: bool)
    requires forall i :: 0 <= i < |ts| ==> WellFormedTask(ts[i])
    requires decimalMinutes || WholeMinuteTasks(ts)
    ensures LoadTasksWith(TasksText(ts), decimalMinutes) == Normalized(ts)
  {
    if ts == [] {
      LoadEmpty(decimalMinutes);
    } else {
      TasksTextResults(ts, decimalMinutes);
      SomesAllPresent(LineResultsWith(TasksText(ts), decimalMinutes));
    }
  }

  /** A rewritten task file of whole-minute tasks loads back, through `loadTasks`, as the queue written. */
  lemma LoadTasksText(ts: seq<TaskSpec>)
    requires forall i :: 0 <= i < |ts| ==> WellFormedTask(ts[i])
    requires WholeMinuteTasks(ts)
    ensures LoadTasks(TasksText(ts)) == Normalized(ts)
  {
    LoadTasksTextWith(ts, false);
  }

  /** With the reader that accepts decimal minutes, every rewritten task file loads back as the queue written. */
  lemma LoadTasksTextCorrected(ts: seq<TaskSpec>)
    requires forall i :: 0 <= i < |ts| ==> WellFormedTask(ts[i])
    ensures LoadTasksCorrected(TasksText(ts)) == Normalized(ts)
  {
    LoadTasksTextWith(ts, true);
  }

  /**
   * The rewritten file of a queue holding `Read`, seven and a half minutes,
   * loads back through `loadTasks` as `Read`, five minutes.
   */
  lemma FractionalReloadExample(t: TaskSpec)
    requires t == TaskSpec("Read", Decimal(75, 1))
    ensures LoadTasks(TasksText([t])) == [TaskSpec("Read", Whole(5))]
    ensures LoadTasksCorrected(TasksText([t])) == [t]
  {
    ExampleTask(t);
    FractionalWriteBackExample(t);
    FormatSingleLine(t);
    assert TasksText([t]) == FormatTaskLine(t);
    assert '\n' !in FormatTaskLine(t);
    LoadOneLine(FormatTaskLine(t), false, TaskSpec("Read", Whole(5)));
    LoadOneLine(FormatTaskLine(t), true, t);
  }

  /** A file of one line that parses loads as that line's task. */
  lemma LoadOneLine(line: string, decimalMinutes: bool, v: TaskSpec)
    requires '\n' !in line && ParseTaskLineWith(line, decimalMinutes) == Some(v)
    ensures LoadTasksWith(line, decimalMinutes) == [v]
  {
    LineResultsSingle(line, decimalMinutes);
    SomesSingle(LineResultsWith(line, decimalMinutes), v);
  }

  /** A text without a line feed is one line. */
  lemma LineResultsSingle(line: string, decimalMinutes: bool)
    requires '\n' !in line
    ensures LineResultsWith(line, decimalMinutes) == [ParseTaskLineWith(line, decimalMinutes)]
  {
    SplitSingle(line);
  }

  /** A line ending in a carriage return never matches: `.` refuses it and `$` needs the end of the text. */
  lemma CarriageReturnNoGroup(s: string, k: nat)
    requires k <= |s| && s != [] && s[|s| - 1] == '\r'
    ensures GroupStart(s, k) == None
  {
    var a := SkipSpaces(s, k);
    if a < |s| && s[a] == '-' {
      var b := SkipSpaces(s, a + 1);
      if b < |s| {
        assert !SingleLineFrom(s, b);
      }
    }
  }

  /**
   * A task line saved with a Windows line ending keeps its `\r` after the
   * split on `\n`, and then parses to nothing.
   */
  lemma CarriageReturnLine(s: string, decimalMinutes: bool)
    requires s != [] && s[|s| - 1] == '\r'
    ensures ParseTaskLineWith(s, decimalMinutes) == None
  {
    forall k | 1 <= k <= |s| ensures !SplitsAt(s, k) {
      CarriageReturnNoGroup(s, k);
    }
    assert FirstSplit(s, 1).None?;
  }

  /** A line without a `-` is skipped. */
  lemma NoDashLine(s: string, decimalMinutes: bool)
    requires '-' !in s
    ensures ParseTaskLineWith(s, decimalMinutes) == None
  {
    forall k | 1 <= k <= |s| ensures GroupStart(s, k) == None {
      var a := SkipSpaces(s, k);
      assert a == |s| || s[a] != '-';
    }
    assert FirstSplit(s, 1).None?;
  }
}
