/**
 * The pieces of the chime screen that decide what is shown and when a chime
 * fires (hourlychime-cli.js): the current and next interval, the countdown
 * target, the alert de-duplication of `checkAlerts`, the line rewrite of
 * `postponeFutureTasks`, and the window of hours `renderCalendar` draws.
 */
module ChimeTracker {
  import opened Wrappers
  import opened Text
  import opened Clock
  import opened Sorting
  import opened ChimeSchedule
  import opened Countdown
  import Timeline

  /** The interval is running at `now`. */
  predicate Contains(iv: Interval, now: int) {
    iv.date <= now < iv.endDate
  }

  // ---------------------------------------------------------------------------
  // findCurrentAndNextTasks
  // ---------------------------------------------------------------------------

  /** The current interval: scanning from the end, the first one running at `now`. */
  function FindCurrent(ivs: seq<Interval>, now: int): (r: Option<nat>)
    ensures r.Some? ==> r.value < |ivs| && Contains(ivs[r.value], now)
    ensures r.Some? ==> forall j :: r.value < j < |ivs| ==> !Contains(ivs[j], now)
    ensures r.None? ==> forall j :: 0 <= j < |ivs| ==> !Contains(ivs[j], now)
    decreases |ivs|
  {
    if ivs == [] then None
    else if Contains(ivs[|ivs| - 1], now) then Some(|ivs| - 1)
    else
      var r := FindCurrent(ivs[..|ivs| - 1], now);
      assert forall j :: 0 <= j < |ivs| - 1 ==> ivs[..|ivs| - 1][j] == ivs[j];
      r
  }

  /** The first interval, from `from` on, that starts after `now`. */
  function FindNextFrom(ivs: seq<Interval>, now: int, from: nat): (r: Option<nat>)
    requires from <= |ivs|
    ensures r.Some? ==> from <= r.value < |ivs| && ivs[r.value].date > now
    ensures r.Some? ==> forall j :: from <= j < r.value ==> ivs[j].date <= now
    ensures r.None? ==> forall j :: from <= j < |ivs| ==> ivs[j].date <= now
    decreases |ivs| - from
  {
    if from == |ivs| then None
    else if ivs[from].date > now then Some(from)
    else FindNextFrom(ivs, now, from + 1)
  }

  /** The next interval: scanning from the start, the first one that starts after `now`. */
  function FindNext(ivs: seq<Interval>, now: int): (r: Option<nat>)
    ensures r.Some? ==> r.value < |ivs| && ivs[r.value].date > now
    ensures r.Some? ==> forall j :: 0 <= j < r.value ==> ivs[j].date <= now
    ensures r.None? ==> forall j :: 0 <= j < |ivs| ==> ivs[j].date <= now
  {
    FindNextFrom(ivs, now, 0)
  }

  /** In a schedule sorted by start, the next interval starts no later than any other future one. */
  lemma NextIsEarliest(ivs: seq<Interval>, now: int)
    requires SortedBy(ivs, IntervalDate)
    requires FindNext(ivs, now).Some?
    ensures forall j :: 0 <= j < |ivs| && ivs[j].date > now ==>
              ivs[FindNext(ivs, now).value].date <= ivs[j].date
    ensures forall j :: FindNext(ivs, now).value <= j < |ivs| ==> ivs[j].date > now
  {
    var n := FindNext(ivs, now).value;
    forall j | n <= j < |ivs| ensures ivs[j].date > now {
      if j > n {
        assert IntervalDate(ivs[n]) <= IntervalDate(ivs[j]);
      }
    }
    forall j | 0 <= j < |ivs| && ivs[j].date > now ensures ivs[n].date <= ivs[j].date {
      if j > n {
        assert IntervalDate(ivs[n]) <= IntervalDate(ivs[j]);
      }
    }
  }

  // ---------------------------------------------------------------------------
  // The countdown target of updateUI
  // ---------------------------------------------------------------------------

  /**
   * The instant the countdown runs to: the current interval's end, else the
   * next interval's start, else nothing. It always lies after `now`, and
   * there is one exactly when some interval is running or still to start.
   */
  function CountdownTarget(ivs: seq<Interval>, now: int): (r: Option<int>)
    ensures r.Some? ==> r.value > now
    ensures r.Some? <==>
              (exists j :: 0 <= j < |ivs| && Contains(ivs[j], now)) ||
              (exists j :: 0 <= j < |ivs| && ivs[j].date > now)
    ensures FindCurrent(ivs, now).Some? ==> r == Some(ivs[FindCurrent(ivs, now).value].endDate)
    ensures FindCurrent(ivs, now).None? && FindNext(ivs, now).Some? ==>
              r == Some(ivs[FindNext(ivs, now).value].date)
  {
    var current := FindCurrent(ivs, now);
    var next := FindNext(ivs, now);
    if current.Some? && now < ivs[current.value].endDate then Some(ivs[current.value].endDate)
    else if next.Some? then Some(ivs[next.value].date)
    else None
  }

  /**
   * The countdown text `updateUI` sets: the countdown to the target, or the
   * placeholder when there is no target. `None` stands for leaving the old
   * text in place, which the source does when the target has passed; since
   * the target always lies ahead, the text is always set.
   */
  function CountdownDisplay(ivs: seq<Interval>, now: int, digital: bool, unicode: bool): (r: Option<string>)
    ensures r.Some?
    ensures CountdownTarget(ivs, now).None? ==> r == Some(Placeholder(digital, unicode))
    ensures CountdownTarget(ivs, now).Some? ==>
              r == Some(CountdownText(RoundSeconds(CountdownTarget(ivs, now).value - now), digital, unicode))
  {
    match CountdownTarget(ivs, now)
    case None => Some(Placeholder(digital, unicode))
    case Some(target) =>
      if target - now >= 0 then Some(FormatCountdown(target - now, digital, unicode)) else None
  }

  // ---------------------------------------------------------------------------
  // checkAlerts
  // ---------------------------------------------------------------------------

  /** The last alert point due at `now`, scanning `points[..n]` from the end. */
  function LatestDueBefore(points: seq<AlertPoint>, now: int, n: nat): (r: Option<nat>)
    requires n <= |points|
    ensures r.Some? ==> r.value < n && points[r.value].date <= now
    ensures r.Some? ==> forall j :: r.value < j < n ==> points[j].date > now
    ensures r.None? ==> forall j :: 0 <= j < n ==> points[j].date > now
    decreases n
  {
    if n == 0 then None
    else if points[n - 1].date <= now then Some(n - 1)
    else LatestDueBefore(points, now, n - 1)
  }

  function LatestDue(points: seq<AlertPoint>, now: int): (r: Option<nat>)
    ensures r.Some? ==> r.value < |points| && points[r.value].date <= now
    ensures r.Some? ==> forall j :: r.value < j < |points| ==> points[j].date > now
    ensures r.None? ==> forall j :: 0 <= j < |points| ==> points[j].date > now
  {
    LatestDueBefore(points, now, |points|)
  }

  /** The outcome of one check: the point that fires, if any, and the new `lastAlertFired`. */
  datatype AlertCheck = AlertCheck(fired: Option<AlertPoint>, lastFired: Option<int>)

  /**
   * `checkAlerts(now)`: only the latest due point is a candidate, and it fires
   * exactly when its instant is not the one fired last.
   */
  function CheckAlerts(points: seq<AlertPoint>, lastFired: Option<int>, now: int): (r: AlertCheck)
    ensures r.fired.Some? <==>
              LatestDue(points, now).Some? && lastFired != Some(points[LatestDue(points, now).value].date)
    ensures r.fired.Some? ==>
              && r.fired.value == points[LatestDue(points, now).value]
              && r.fired.value.date <= now
              && Some(r.fired.value.date) != lastFired
              && r.lastFired == Some(r.fired.value.date)
    ensures r.fired.None? ==> r.lastFired == lastFired
  {
    match LatestDue(points, now)
    case None => AlertCheck(None, lastFired)
    case Some(i) =>
      if lastFired != Some(points[i].date) then AlertCheck(Some(points[i]), Some(points[i].date))
      else AlertCheck(None, lastFired)
  }

  /** Checking twice at the same instant fires at most once. */
  lemma CheckAlertsIdempotent(points: seq<AlertPoint>, lastFired: Option<int>, now: int)
    ensures CheckAlerts(points, CheckAlerts(points, lastFired, now).lastFired, now).fired == None
  {
  }

  /** In sorted points, no due point lies after the one that fires: skipped earlier points never fire later. */
  lemma FiredIsLatestDue(points: seq<AlertPoint>, lastFired: Option<int>, now: int)
    requires SortedBy(points, PointDate)
    requires CheckAlerts(points, lastFired, now).fired.Some?
    ensures forall j :: 0 <= j < |points| && points[j].date <= now ==>
              points[j].date <= CheckAlerts(points, lastFired, now).fired.value.date
  {
    var i := LatestDue(points, now).value;
    forall j | 0 <= j < |points| && points[j].date <= now ensures points[j].date <= points[i].date {
      if j < i {
        assert PointDate(points[j]) <= PointDate(points[i]);
      }
    }
  }

  /** The instants fired by checks at the successive `nows`. */
  function Fired(points: seq<AlertPoint>, lastFired: Option<int>, nows: seq<int>): seq<int>
    decreases |nows|
  {
    if nows == [] then []
    else
      var c := CheckAlerts(points, lastFired, nows[0]);
      (if c.fired.Some? then [c.fired.value.date] else []) + Fired(points, c.lastFired, nows[1..])
  }

  predicate NonDecreasing(s: seq<int>) {
    forall i, j :: 0 <= i < j < |s| ==> s[i] <= s[j]
  }

  predicate StrictlyIncreasing(s: seq<int>) {
    forall i, j :: 0 <= i < j < |s| ==> s[i] < s[j]
  }

  /** `lastFired` is the instant of some point already due at `now`. */
  predicate FiredBefore(points: seq<AlertPoint>, lastFired: Option<int>, now: int) {
    lastFired.Some? ==> exists k :: 0 <= k < |points| && points[k].date == lastFired.value && points[k].date <= now
  }

  /** A check keeps `lastFired` the instant of a point due by then, and never moves it backwards. */
  lemma CheckStep(points: seq<AlertPoint>, lastFired: Option<int>, now: int, later: int)
    requires SortedBy(points, PointDate)
    requires FiredBefore(points, lastFired, now) && now <= later
    ensures var c := CheckAlerts(points, lastFired, later);
            && FiredBefore(points, c.lastFired, later)
            && (c.fired.Some? && lastFired.Some? ==> c.fired.value.date > lastFired.value)
  {
    var c := CheckAlerts(points, lastFired, later);
    if c.fired.Some? {
      var i := LatestDue(points, later).value;
      if lastFired.Some? {
        var k :| 0 <= k < |points| && points[k].date == lastFired.value && points[k].date <= now;
        if k < i {
          assert PointDate(points[k]) <= PointDate(points[i]);
        }
      }
    }
  }

  /** Strictly increasing, and above `bound` when there is one. */
  predicate IncreasingAbove(s: seq<int>, bound: Option<int>) {
    StrictlyIncreasing(s) && (bound.Some? ==> forall i :: 0 <= i < |s| ==> s[i] > bound.value)
  }

  /**
   * Over sorted points and non-decreasing check times, the fired instants
   * strictly increase: the same instant never fires twice, and nothing
   * fires out of order; all of them lie after the instant fired before.
   */
  lemma {:induction false} FiredIncreasing(points: seq<AlertPoint>, lastFired: Option<int>, nows: seq<int>)
    requires SortedBy(points, PointDate) && NonDecreasing(nows)
    requires nows != [] ==> FiredBefore(points, lastFired, nows[0])
    ensures IncreasingAbove(Fired(points, lastFired, nows), lastFired)
    decreases |nows|
  {
    if nows != [] {
      var c := CheckAlerts(points, lastFired, nows[0]);
      CheckStep(points, lastFired, nows[0], nows[0]);
      var rest := nows[1..];
      NonDecreasingTail(nows);
      if rest != [] {
        FiredBeforeLater(points, c.lastFired, nows[0], rest[0]);
      }
      FiredIncreasing(points, c.lastFired, rest);
      if c.fired.Some? {
        ConsIncreasing(c.fired.value.date, Fired(points, c.lastFired, rest), lastFired);
      }
    }
  }

  /** The check times after the first are still non-decreasing, and none is before the first. */
  lemma NonDecreasingTail(nows: seq<int>)
    requires NonDecreasing(nows) && nows != []
    ensures NonDecreasing(nows[1..])
    ensures nows[1..] != [] ==> nows[0] <= nows[1..][0]
  {
    var rest := nows[1..];
    forall i, j | 0 <= i < j < |rest| ensures rest[i] <= rest[j] {
      assert rest[i] == nows[i + 1] && rest[j] == nows[j + 1];
    }
  }

  /** A head below every element of an increasing tail, and above the bound, keeps the sequence increasing above it. */
  lemma ConsIncreasing(x: int, tail: seq<int>, bound: Option<int>)
    requires IncreasingAbove(tail, Some(x)) && (bound.Some? ==> x > bound.value)
    ensures IncreasingAbove([x] + tail, bound)
  {
    var all := [x] + tail;
    forall i, j | 0 <= i < j < |all| ensures all[i] < all[j] {
      assert all[j] == tail[j - 1];
      if i > 0 {
        assert all[i] == tail[i - 1];
      }
    }
    forall i | 0 <= i < |all| ensures all[i] >= x {
      if i > 0 {
        assert all[i] == tail[i - 1];
      }
    }
  }

  lemma FiredBeforeLater(points: seq<AlertPoint>, lastFired: Option<int>, now: int, later: int)
    requires FiredBefore(points, lastFired, now) && now <= later
    ensures FiredBefore(points, lastFired, later)
  {
  }

  // ---------------------------------------------------------------------------
  // postponeFutureTasks
  // ---------------------------------------------------------------------------

  /** The minutes a postponed line moves by. */
  const PostponeMinutes := 15

  /**
   * One line of the chime file under postponing: a line starting `HH:MM` at
   * an instant after `now` gets that time plus 15 minutes (wrapped to the
   * day); the rest of the line is kept. `None`: the line is left as it is.
   */
  function PostponeLine(line: string, now: int): (r: Option<string>)
    ensures r.Some? <==> HasClockPrefix(line) && ClockPrefix(line).value * MsPerMinute > now
    ensures r.Some? ==>
              && |r.value| == |line| && r.value[5..] == line[5..]
              && ClockPrefix(r.value) == Some((ClockPrefix(line).value + PostponeMinutes) % MinutesPerDay)
  {
    match ClockPrefix(line)
    case None => None
    case Some(minutes) =>
      if minutes * MsPerMinute > now then
        var time := FormatTime((minutes + PostponeMinutes) * MsPerMinute);
        MinuteOfDayOfMinutes(minutes + PostponeMinutes);
        ClockPrefixOfPrefix(time, line[5..]);
        Some(time + line[5..])
      else None
  }

  /** The file's lines after postponing. */
  function PostponedLines(lines: seq<string>, now: int): (r: seq<string>)
    ensures |r| == |lines|
    ensures forall i :: 0 <= i < |lines| ==> r[i] == PostponeLine(lines[i], now).GetOr(lines[i])
  {
    seq(|lines|, i requires 0 <= i < |lines| => PostponeLine(lines[i], now).GetOr(lines[i]))
  }

  predicate AnyPostponed(lines: seq<string>, now: int) {
    exists i :: 0 <= i < |lines| && PostponeLine(lines[i], now).Some?
  }

  /**
   * `postponeFutureTasks`: the new file text, or `None` when no line starts
   * in the future and the file is not written.
   */
  function Postpone(text: string, now: int): (r: Option<string>)
    ensures r.None? <==> !AnyPostponed(SplitLines(text), now)
  {
    var lines := SplitLines(text);
    if AnyPostponed(lines, now) then Some(JoinLines(PostponedLines(lines, now))) else None
  }

  /**
   * Postponing keeps the line count and every line that does not start in the
   * future; a future line reads back 15 minutes later with the same rest.
   */
  lemma PostponeLines(text: string, now: int)
    requires Postpone(text, now).Some?
    ensures var before := SplitLines(text);
            var after := SplitLines(Postpone(text, now).value);
            && |after| == |before|
            && forall i :: 0 <= i < |before| ==>
                 if HasClockPrefix(before[i]) && ClockPrefix(before[i]).value * MsPerMinute > now then
                   && ClockPrefix(after[i]) == Some((ClockPrefix(before[i]).value + PostponeMinutes) % MinutesPerDay)
                   && after[i][5..] == before[i][5..]
                 else after[i] == before[i]
  {
    var before := SplitLines(text);
    var updated := PostponedLines(before, now);
    forall i | 0 <= i < |updated| ensures '\n' !in updated[i] {
      if PostponeLine(before[i], now).Some? {
        PostponedOneLine(before[i], now);
      }
    }
    SplitJoin(updated);
  }

  /** A postponed line is still a single line of the file. */
  lemma PostponedOneLine(line: string, now: int)
    requires '\n' !in line && PostponeLine(line, now).Some?
    ensures '\n' !in PostponeLine(line, now).value
  {
    var l := PostponeLine(line, now).value;
    assert HasClockPrefix(l);
    forall k | 0 <= k < |l| ensures l[k] != '\n' {
      if k >= 5 {
        assert l[k] == l[5..][k - 5] == line[k];
      }
    }
  }

  // ---------------------------------------------------------------------------
  // renderCalendar
  // ---------------------------------------------------------------------------

  /**
   * The hours the chime calendar shows: the whole day when nothing is
   * scheduled, otherwise from an hour before the first interval's start to an
   * hour after the last interval's end, clipped to the day.
   */
  function ChimeWindow(ivs: seq<Interval>): (r: (int, int))
    ensures 0 <= r.0 && r.1 <= 23
    ensures ivs == [] ==> r == (0, 23)
    ensures ivs != [] ==> r.0 <= HourOf(ivs[0].date) && r.1 >= Min(23, HourOf(ivs[|ivs| - 1].endDate))
    ensures ivs != [] ==> r.0 >= HourOf(ivs[0].date) - 1 && r.1 <= HourOf(ivs[|ivs| - 1].endDate) + 1
    ensures ivs != [] ==> (r.0 == 0 || r.0 == HourOf(ivs[0].date) - 1) && (r.1 == 23 || r.1 == HourOf(ivs[|ivs| - 1].endDate) + 1)
  {
    if ivs == [] then (0, 23)
    else
      HourAndMinute(ivs[0].date);
      HourAndMinute(ivs[|ivs| - 1].endDate);
      (Max(0, HourOf(ivs[0].date) - 1), Min(23, HourOf(ivs[|ivs| - 1].endDate) + 1))
  }

  /** The calendar of the chime schedule: every interval drawn over its span. */
  function ChimeCalendar(ivs: seq<Interval>, now: int): seq<Timeline.Row> {
    var w := ChimeWindow(ivs);
    var spans := seq(|ivs|, i requires 0 <= i < |ivs| => Some(Timeline.Span(ivs[i].date, ivs[i].endDate)));
    Timeline.Calendar(w.0, w.1, spans, now)
  }

  /**
   * For a schedule sorted by start within one day, the window opens no later
   * than every interval's start, so every interval's first slot is drawn.
   */
  lemma ChimeWindowCoversStarts(ivs: seq<Interval>, i: nat)
    requires SortedBy(ivs, IntervalDate) && i < |ivs|
    requires forall j :: 0 <= j < |ivs| ==> 0 <= ivs[j].date < MinutesPerDay * MsPerMinute
    ensures ChimeWindow(ivs).0 * MsPerHour <= ivs[i].date
  {
    var d := ivs[0].date;
    assert HourOf(d) == d / MsPerHour;
    assert HourOf(d) * MsPerHour <= d;
    assert IntervalDate(ivs[0]) <= IntervalDate(ivs[i]);
  }

  /**
   * A schedule that starts in the day's last hour and ends the next day
   * before 21:00 gets an empty window: the window closes an hour after the
   * end's hour of the day, before it opens at 22:00, so the calendar shows
   * only the NOW line.
   */
  lemma LateEndEmptiesCalendar(ivs: seq<Interval>, now: int)
    requires ivs != []
    requires 23 * MsPerHour <= ivs[0].date < 24 * MsPerHour
    requires 24 * MsPerHour <= ivs[|ivs| - 1].endDate < 45 * MsPerHour
    ensures ChimeWindow(ivs).1 < ChimeWindow(ivs).0
    ensures ChimeCalendar(ivs, now) == [Timeline.NowRow]
  {
    var e := ivs[|ivs| - 1].endDate;
    assert e / MsPerHour - 24 == HourOf(e);
    assert ivs[0].date / MsPerHour == 23;
    var w := ChimeWindow(ivs);
    assert Timeline.Slots(w.0, w.1) == [];
  }
}
