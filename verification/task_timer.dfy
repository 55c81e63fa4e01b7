/**
 * The task queue timer of taskchime-cli.js: a queue of named tasks run one
 * after another. Its run state (the flags `isRunning`, `isPaused` and
 * `isChiming`, the current index, the queue's start instant and the two
 * accumulators) is an explicit record here, and every key handler is a pure
 * transition taking the current instant `now`. The side effects a transition
 * has on files and on the desktop are returned as data.
 *
 * Instants are whole milliseconds, as `Date` objects hold them. Where the
 * source builds a `Date` from a fractional number of milliseconds, the
 * constructor truncates; all instants the timer builds lie after the epoch,
 * so truncation is the floor taken here.
 */
module TaskTimer {
  import opened Wrappers
  import opened Text
  import opened Clock
  import opened Decimals
  import opened TaskGrammar
  import opened Timeline

  // ---------------------------------------------------------------------------
  // Minutes to milliseconds
  // ---------------------------------------------------------------------------

  /** The whole part of a quotient of naturals, against the real quotient. */
  lemma QuotientFloor(a: nat, p: nat)
    requires p >= 1
    ensures (a / p) as real <= a as real / p as real < (a / p) as real + 1.0
  {
    var q, r := a / p, a % p;
    var pr := p as real;
    assert a == q * p + r;
    assert a as real == q as real * pr + r as real;
    assert q as real * pr / pr == q as real;
    assert a as real / pr == q as real + r as real / pr;
    FractionBelowOne(r as real, pr);
  }

  /** A non-negative amount below a positive one is a fraction below one of it. */
  lemma FractionBelowOne(x: real, y: real)
    requires 0.0 <= x < y
    ensures 0.0 <= x / y < 1.0
  {
    assert x / y * y == x;
  }

  lemma ScaledValue(d: Decimal)
    ensures Value(d) * 60000.0 == (d.units * MsPerMinute) as real / Pow10(d.scale) as real
  {
  }

  /**
   * `minutes * 60000` as a `Date` offset: the whole milliseconds in a
   * non-negative number of minutes.
   */
  function MinutesToMs(d: Decimal): nat {
    var a: nat := d.units * MsPerMinute;
    var p: nat := Pow10(d.scale);
    QuotientFloor(a, p);
    a / p
  }

  /** The milliseconds are the exact length truncated: at most it, and less than one below it. */
  lemma MinutesToMsFloor(d: Decimal)
    ensures MinutesToMs(d) as real <= Value(d) * 60000.0 < MinutesToMs(d) as real + 1.0
  {
    QuotientFloor(d.units * MsPerMinute, Pow10(d.scale));
    ScaledValue(d);
  }

  /** The duration is a whole number of milliseconds, so no truncation happens. */
  predicate WholeMs(d: Decimal) {
    MinutesToMs(d) as real == Value(d) * 60000.0
  }

  /** Every duration with at most four decimal places is a whole number of milliseconds. */
  lemma ShortDecimalsWholeMs(d: Decimal)
    requires d.scale <= 4
    ensures WholeMs(d)
  {
    var p := Pow10(d.scale);
    var k := MsPerMinute / p;
    assert MsPerMinute == k * p by {
      assert d.scale == 0 || d.scale == 1 || d.scale == 2 || d.scale == 3 || d.scale == 4;
    }
    assert d.units * MsPerMinute == (d.units * k) * p;
    assert MinutesToMs(d) == d.units * k;
    ScaledValue(d);
    ProductAsReal(d.units * k, p);
  }

  /** When the part added is a whole number of milliseconds, truncating the sum adds the parts. */
  lemma MsOfSum(a: Decimal, b: Decimal)
    requires WholeMs(b)
    ensures MinutesToMs(Add(a, b)) == MinutesToMs(a) + MinutesToMs(b)
  {
    var s := MinutesToMs(Add(a, b));
    var x, y := MinutesToMs(a), MinutesToMs(b);
    MinutesToMsFloor(Add(a, b));
    MinutesToMsFloor(a);
    MinutesToMsFloor(b);
    assert Value(Add(a, b)) * 60000.0 == Value(a) * 60000.0 + Value(b) * 60000.0;
    assert s < x + y + 1;
    assert x + y < s + 1;
  }

  // ---------------------------------------------------------------------------
  // The schedule (`calculateSchedule`)
  // ---------------------------------------------------------------------------

  /** A queued task: what the tasks file says, and its scheduled span once laid out. */
  datatype Task = Task(spec: TaskSpec, times: Option<Span>)

  /** A freshly loaded task has no times. */
  function Unscheduled(specs: seq<TaskSpec>): (r: seq<Task>)
    ensures |r| == |specs|
    ensures forall i :: 0 <= i < |r| ==> r[i] == Task(specs[i], None)
  {
    seq(|specs|, i requires 0 <= i < |specs| => Task(specs[i], None))
  }

  function Specs(ts: seq<Task>): (r: seq<TaskSpec>)
    ensures |r| == |ts|
    ensures forall i :: 0 <= i < |r| ==> r[i] == ts[i].spec
  {
    seq(|ts|, i requires 0 <= i < |ts| => ts[i].spec)
  }

  /** The task's own length in milliseconds. */
  function DurationMs(t: Task): nat {
    MinutesToMs(t.spec.duration)
  }

  /**
   * The queue laid out back to back from `from`: the first task starts
   * there, each task lasts its own duration, and each one starts where the
   * one before it ends.
   */
  predicate LaidOutFrom(ts: seq<Task>, from: int) {
    && (forall i :: 0 <= i < |ts| ==>
          ts[i].times.Some? && ts[i].times.value.end == ts[i].times.value.start + DurationMs(ts[i]))
    && (|ts| > 0 ==> ts[0].times.value.start == from)
    && (forall i :: 0 <= i < |ts| - 1 ==> ts[i].times.value.end == ts[i + 1].times.value.start)
  }

  /** No task has times (the `delete task.startTime; delete task.endTime` branch). */
  predicate Cleared(ts: seq<Task>) {
    forall i :: 0 <= i < |ts| ==> ts[i].times.None?
  }

  /** The `forEach` over the queue carrying `cumulativeTime` from task to task. */
  function LayOut(ts: seq<Task>, from: int): (r: seq<Task>)
    ensures Specs(r) == Specs(ts)
    ensures LaidOutFrom(r, from)
    decreases |ts|
  {
    if ts == [] then []
    else
      var end := from + DurationMs(ts[0]);
      var rest := LayOut(ts[1..], end);
      var r := [Task(ts[0].spec, Some(Span(from, end)))] + rest;
      assert forall i :: 1 <= i < |r| ==> r[i] == rest[i - 1];
      assert Specs(r) == Specs(ts) by {
        forall i | 1 <= i < |r| ensures r[i].spec == ts[i].spec {
          assert Specs(rest)[i - 1] == Specs(ts[1..])[i - 1];
        }
      }
      assert LaidOutFrom(r, from) by {
        forall i | 0 <= i < |r| - 1 ensures r[i].times.value.end == r[i + 1].times.value.start {
          assert r[i + 1] == rest[i];
          if i > 0 {
            assert r[i] == rest[i - 1];
          }
        }
      }
      r
  }

  /** The milliseconds of the first `i` tasks together. */
  function PrefixMs(ts: seq<Task>, i: nat): int
    requires i <= |ts|
  {
    if i == 0 then 0 else PrefixMs(ts, i - 1) + DurationMs(ts[i - 1])
  }

  /** A laid-out queue's task `i` spans from `from` plus the tasks before it to `from` plus those through it. */
  lemma {:induction false} LaidOutSpan(ts: seq<Task>, from: int, i: nat)
    requires LaidOutFrom(ts, from) && i < |ts|
    ensures ts[i].times == Some(Span(from + PrefixMs(ts, i), from + PrefixMs(ts, i + 1)))
    decreases i
  {
    if i > 0 {
      LaidOutSpan(ts, from, i - 1);
    }
  }

  /** Tasks with the same specs have the same lengths. */
  lemma {:induction false} PrefixMsOfSpecs(a: seq<Task>, b: seq<Task>, i: nat)
    requires Specs(a) == Specs(b) && i <= |a|
    ensures PrefixMs(a, i) == PrefixMs(b, i)
    decreases i
  {
    if i > 0 {
      PrefixMsOfSpecs(a, b, i - 1);
      assert a[i - 1].spec == Specs(a)[i - 1] == b[i - 1].spec;
    }
  }

  /** There is exactly one way to lay a queue out from a given instant. */
  lemma LaidOutUnique(a: seq<Task>, b: seq<Task>, from: int)
    requires LaidOutFrom(a, from) && LaidOutFrom(b, from) && Specs(a) == Specs(b)
    ensures a == b
  {
    forall i | 0 <= i < |a| ensures a[i] == b[i] {
      LaidOutSpan(a, from, i);
      LaidOutSpan(b, from, i);
      PrefixMsOfSpecs(a, b, i);
      PrefixMsOfSpecs(a, b, i + 1);
      assert a[i].spec == Specs(a)[i] == b[i].spec;
    }
  }

  /** Dropping the head of a laid-out queue leaves the rest laid out from the head's end. */
  lemma LaidOutTail(ts: seq<Task>, from: int)
    requires LaidOutFrom(ts, from) && |ts| >= 1
    ensures LaidOutFrom(ts[1..], ts[0].times.value.end)
  {
    var rest := ts[1..];
    assert forall i :: 0 <= i < |rest| ==> rest[i] == ts[i + 1];
  }

  /** The spans the calendar draws, one per task. */
  function Spans(ts: seq<Task>): (r: seq<Option<Span>>)
    ensures |r| == |ts| && forall i :: 0 <= i < |ts| ==> r[i] == ts[i].times
  {
    seq(|ts|, i requires 0 <= i < |ts| => ts[i].times)
  }

  // ---------------------------------------------------------------------------
  // The run state
  // ---------------------------------------------------------------------------

  /**
   * The timer's globals. `current` is `currentTaskIndex` (-1 when idle),
   * `queueStart` and `pauseStart` are `queueStartTime` and `lastPauseTime`
   * (`null` as `None`), `pausedMs` is `pausedDuration` in milliseconds and
   * `completed` is `completedTasksDuration` in minutes.
   */
  datatype TimerState = TimerState(
    tasks: seq<Task>,
    log: seq<string>,
    running: bool,
    paused: bool,
    chiming: bool,
    current: int,
    queueStart: Option<int>,
    pauseStart: Option<int>,
    pausedMs: int,
    completed: Decimal,
    lastCompleted: Option<TaskSpec>)

  /** What a transition does outside the state: file writes, the repeating alert, the desktop notification. */
  datatype Effect =
    | AppendCompleted(entry: string)
    | SaveTasks(text: string)
    | StartAlert
    | Notify(finished: string, next: Option<string>)

  datatype Step = Step(state: TimerState, effects: seq<Effect>)

  /** Where the queue starts now: the queue's start, plus the finished tasks' minutes, plus the time spent paused. */
  function ScheduleStart(s: TimerState): int {
    s.queueStart.GetOr(0) + MinutesToMs(s.completed) + s.pausedMs
  }

  /**
   * `calculateSchedule`: an idle queue loses its times; otherwise the queue
   * is laid out back to back from the schedule start. Nothing else changes.
   */
  function CalculateSchedule(s: TimerState): (r: TimerState)
    ensures r.(tasks := s.tasks) == s
    ensures Specs(r.tasks) == Specs(s.tasks)
    ensures !s.running && !s.paused ==> Cleared(r.tasks)
    ensures s.running || s.paused ==> LaidOutFrom(r.tasks, ScheduleStart(s))
  {
    if !s.running && !s.paused then s.(tasks := Unscheduled(Specs(s.tasks)))
    else s.(tasks := LayOut(s.tasks, ScheduleStart(s)))
  }

  /** `loadTasks`: the tasks file, or the two sample tasks when there is no file yet. */
  function LoadQueue(tasksFile: Option<string>): (r: seq<Task>)
    ensures Specs(r) == LoadTasks(tasksFile.GetOr(SampleTasks))
    ensures Cleared(r)
  {
    Unscheduled(LoadTasks(tasksFile.GetOr(SampleTasks)))
  }

  /**
   * `split('\n').filter(Boolean)`: the non-empty lines in order, each as
   * often as it occurs.
   */
  function NonEmptyLines(ls: seq<string>): (r: seq<string>)
    ensures forall i :: 0 <= i < |r| ==> r[i] != [] && r[i] in ls
    ensures forall l :: l in ls && l != [] ==> l in r
    ensures multiset(r) == multiset(ls)[[] := 0]
  {
    if ls == [] then []
    else
      assert ls == [ls[0]] + ls[1..];
      (if ls[0] == [] then [] else [ls[0]]) + NonEmptyLines(ls[1..])
  }

  /** Filtering a concatenation filters each part in turn: the order of the lines is kept. */
  lemma {:induction false} NonEmptyLinesConcat(a: seq<string>, b: seq<string>)
    ensures NonEmptyLines(a + b) == NonEmptyLines(a) + NonEmptyLines(b)
    decreases |a|
  {
    if a != [] {
      assert (a + b)[1..] == a[1..] + b;
      NonEmptyLinesConcat(a[1..], b);
    } else {
      assert a + b == b;
    }
  }

  /** The start-up state: tasks and the completed log read from their files, nothing running. */
  function Initial(tasksFile: Option<string>, completedFile: Option<string>): (r: TimerState)
    ensures !r.running && !r.paused && !r.chiming && r.current == -1
    ensures Specs(r.tasks) == LoadTasks(tasksFile.GetOr(SampleTasks)) && Cleared(r.tasks)
    ensures completedFile.None? ==> r.log == []
    ensures completedFile.Some? ==> r.log == NonEmptyLines(SplitLines(completedFile.value))
  {
    var log := match completedFile
      case None => []
      case Some(text) => NonEmptyLines(SplitLines(text));
    CalculateSchedule(TimerState(LoadQueue(tasksFile), log, false, false, false, -1, None, None, 0, Zero, None))
  }

  /**
   * The state every transition keeps: a pause only while running, with its
   * instant recorded; the current task is the head of a non-empty queue
   * exactly while running; the alert is up exactly while a completed task is
   * remembered; a running queue is laid out from the schedule start, an
   * idle one has no times; and every task lasts a positive time.
   */
  predicate Valid(s: TimerState) {
    && (s.paused ==> s.running && s.pauseStart.Some?)
    && (s.running ==> s.current == 0 && |s.tasks| > 0 && s.queueStart.Some?)
    && (!s.running ==> s.current == -1)
    && (s.chiming <==> s.lastCompleted.Some?)
    && (s.running ==> LaidOutFrom(s.tasks, ScheduleStart(s)))
    && (!s.running ==> Cleared(s.tasks))
    && (forall i :: 0 <= i < |s.tasks| ==> s.tasks[i].spec.duration.units > 0)
  }

  // ---------------------------------------------------------------------------
  // Transitions
  // ---------------------------------------------------------------------------

  /**
   * `start` (key `s`): nothing when already running or when the queue is
   * empty; otherwise the queue runs from `now` with fresh accumulators and
   * the first task starts at `now`.
   */
  function Start(s: TimerState, now: int): (r: TimerState)
    ensures s.running || s.tasks == [] ==> r == s
    ensures !s.running && s.tasks != [] ==>
              && r.running && !r.paused && r.current == 0
              && r.queueStart == Some(now) && r.pausedMs == 0 && Value(r.completed) == 0.0
              && Specs(r.tasks) == Specs(s.tasks) && LaidOutFrom(r.tasks, now)
              && r.chiming == s.chiming && r.log == s.log
  {
    if s.running || s.tasks == [] then s
    else
      var t := s.(running := true, paused := false, current := 0, queueStart := Some(now),
                  pausedMs := 0, completed := Zero);
      assert ScheduleStart(t) == now;
      CalculateSchedule(t)
  }

  /** `new Date() - lastPauseTime`, where a missing pause instant counts as 0. */
  function PauseLength(s: TimerState, now: int): int {
    now - s.pauseStart.GetOr(0)
  }

  /**
   * `togglePause` (key `p`): nothing when not running. Pausing records the
   * instant; resuming adds the pause's length to the paused time and lays the
   * queue out again from the later start. The paused time never shrinks as
   * long as the clock does not run backwards.
   */
  function TogglePause(s: TimerState, now: int): (r: TimerState)
    ensures !s.running ==> r == s
    ensures s.running ==> r.paused == !s.paused && r.running
    ensures s.running && !s.paused ==> r == s.(paused := true, pauseStart := Some(now))
    ensures s.running && s.paused ==>
              && r.pauseStart.None? && r.pausedMs == s.pausedMs + PauseLength(s, now)
              && Specs(r.tasks) == Specs(s.tasks)
              && LaidOutFrom(r.tasks, ScheduleStart(s) + PauseLength(s, now))
    ensures r.current == s.current && r.chiming == s.chiming && r.log == s.log && r.completed == s.completed
    ensures (s.paused ==> s.pauseStart.GetOr(0) <= now) ==> r.pausedMs >= s.pausedMs
  {
    if !s.running then s
    else if !s.paused then s.(paused := true, pauseStart := Some(now))
    else
      var t := s.(paused := false, pausedMs := s.pausedMs + PauseLength(s, now), pauseStart := None);
      assert ScheduleStart(t) == ScheduleStart(s) + PauseLength(s, now);
      CalculateSchedule(t)
  }

  /** `[time] name - N min`; the locale's rendering of the time of day is the `stamp` parameter. */
  function LogEntry(stamp: string, t: TaskSpec): string {
    "[" + stamp + "] " + FormatTaskLine(t)
  }

  /**
   * `completeCurrentTask`: the finished task is remembered and the alert
   * goes up; one log line is written; the head of the queue is dropped and
   * the rest is written back to the tasks file; its minutes join the
   * completed total. An emptied queue stops the run, otherwise the rest is
   * laid out again.
   */
  function CompleteCurrentTask(s: TimerState, stamp: string): (r: Step)
    requires 0 <= s.current < |s.tasks|
    ensures var done := s.tasks[s.current].spec;
            var entry := LogEntry(stamp, done);
            && Specs(r.state.tasks) == Specs(s.tasks)[1..]
            && r.state.log == s.log + [entry]
            && Value(r.state.completed) == Value(s.completed) + Value(done.duration)
            && r.state.chiming && r.state.lastCompleted == Some(done)
            && r.state.paused == s.paused && r.state.pausedMs == s.pausedMs
            && r.state.queueStart == s.queueStart && r.state.pauseStart == s.pauseStart
            && r.effects == [AppendCompleted(entry), SaveTasks(TasksText(Specs(s.tasks)[1..])), StartAlert,
                             Notify(done.name, if |s.tasks| == 1 then None else Some(s.tasks[1].spec.name))]
    ensures |s.tasks| == 1 ==> !r.state.running && r.state.current == -1 && r.state.tasks == []
    ensures |s.tasks| > 1 ==> r.state.running == s.running && r.state.current == s.current
    ensures |s.tasks| > 1 && (s.running || s.paused) ==> LaidOutFrom(r.state.tasks, ScheduleStart(r.state))
  {
    var done := s.tasks[s.current].spec;
    var entry := LogEntry(stamp, done);
    Step(AfterCompletion(s, stamp), [AppendCompleted(entry), SaveTasks(TasksText(Specs(s.tasks)[1..])), StartAlert,
                                     Notify(done.name, if |s.tasks| == 1 then None else Some(s.tasks[1].spec.name))])
  }

  /** The state `completeCurrentTask` leaves behind. */
  function AfterCompletion(s: TimerState, stamp: string): (r: TimerState)
    requires 0 <= s.current < |s.tasks|
    ensures var done := s.tasks[s.current].spec;
            && Specs(r.tasks) == Specs(s.tasks)[1..]
            && r.log == s.log + [LogEntry(stamp, done)]
            && Value(r.completed) == Value(s.completed) + Value(done.duration)
            && r.chiming && r.lastCompleted == Some(done)
            && r.paused == s.paused && r.pausedMs == s.pausedMs
            && r.queueStart == s.queueStart && r.pauseStart == s.pauseStart
    ensures |s.tasks| == 1 ==> !r.running && r.current == -1 && r.tasks == []
    ensures |s.tasks| > 1 ==> r.running == s.running && r.current == s.current
    ensures |s.tasks| > 1 && (s.running || s.paused) ==> LaidOutFrom(r.tasks, ScheduleStart(r))
  {
    var done := s.tasks[s.current].spec;
    var rest := s.tasks[1..];
    var t := s.(tasks := rest, lastCompleted := Some(done), chiming := true, log := s.log + [LogEntry(stamp, done)],
                completed := Add(s.completed, done.duration));
    assert Specs(rest) == Specs(s.tasks)[1..];
    if rest == [] then t.(running := false, current := -1) else CalculateSchedule(t)
  }

  /** `tick`'s guard: running, not paused, no alert up, and the current task's end has come. */
  predicate CompletionDue(s: TimerState, now: int) {
    && s.running && !s.paused && !s.chiming
    && 0 <= s.current < |s.tasks|
    && s.tasks[s.current].times.Some?
    && now >= s.tasks[s.current].times.value.end
  }

  /** `tick` (every second): completes the current task once it is due, and does nothing otherwise. */
  function Tick(s: TimerState, now: int, stamp: string): (r: Step)
    ensures CompletionDue(s, now) ==> r == CompleteCurrentTask(s, stamp)
    ensures !CompletionDue(s, now) ==> r == Step(s, [])
  {
    if !s.running then Step(s, [])
    else if !s.paused && !s.chiming then
      if 0 <= s.current < |s.tasks| && s.tasks[s.current].times.Some? then
        if now >= s.tasks[s.current].times.value.end then CompleteCurrentTask(s, stamp)
        else Step(s, [])
      else Step(s, [])
    else Step(s, [])
  }

  /** `dismissAndContinue` (key `d`): takes the alert down; nothing when there is none. */
  function DismissAndContinue(s: TimerState): (r: TimerState)
    ensures !s.chiming ==> r == s
    ensures s.chiming ==> !r.chiming && r.lastCompleted.None? && r.(chiming := true, lastCompleted := s.lastCompleted) == s
  {
    if !s.chiming then s else s.(chiming := false, lastCompleted := None)
  }

  /**
   * `restart` (key `r`): everything stops, the accumulators and the log are
   * emptied, and the queue is read again from the tasks file, without times.
   * The last queue start and pause instants are left as they were.
   */
  function Restart(s: TimerState, tasksFile: Option<string>): (r: TimerState)
    ensures !r.running && !r.paused && !r.chiming && r.current == -1
    ensures r.pausedMs == 0 && Value(r.completed) == 0.0 && r.log == [] && r.lastCompleted.None?
    ensures Specs(r.tasks) == LoadTasks(tasksFile.GetOr(SampleTasks)) && Cleared(r.tasks)
    ensures r.queueStart == s.queueStart && r.pauseStart == s.pauseStart
  {
    CalculateSchedule(s.(running := false, paused := false, chiming := false, current := -1,
                         pausedMs := 0, completed := Zero, lastCompleted := None, log := [],
                         tasks := LoadQueue(tasksFile)))
  }

  // ---------------------------------------------------------------------------
  // Runs of events and the state invariant
  // ---------------------------------------------------------------------------

  /** The key presses and timer ticks that drive the timer. */
  datatype Event =
    | StartKey(now: int)
    | PauseKey(now: int)
    | TickEvent(now: int, stamp: string)
    | DismissKey
    | RestartKey(tasksFile: Option<string>)

  function Apply(s: TimerState, e: Event): Step {
    match e
    case StartKey(now) => Step(Start(s, now), [])
    case PauseKey(now) => Step(TogglePause(s, now), [])
    case TickEvent(now, stamp) => Tick(s, now, stamp)
    case DismissKey => Step(DismissAndContinue(s), [])
    case RestartKey(f) => Step(Restart(s, f), [])
  }

  function Run(s: TimerState, es: seq<Event>): TimerState
    decreases |es|
  {
    if es == [] then s else Run(Apply(s, es[0]).state, es[1..])
  }

  /** Every task read from a tasks file has a positive duration. */
  lemma LoadedPositive(text: string)
    ensures forall i :: 0 <= i < |LoadTasks(text)| ==> LoadTasks(text)[i].duration.units > 0
  {
    var ts := LoadTasks(text);
    forall i | 0 <= i < |ts| ensures ts[i].duration.units > 0 {
      var k := IndexOfSome(LineResultsWith(text, false), ts[i]);
      PositiveValue(ts[i].duration);
    }
  }

  /** The start-up state is valid. */
  lemma InitialValid(tasksFile: Option<string>, completedFile: Option<string>)
    ensures Valid(Initial(tasksFile, completedFile))
  {
    LoadedPositive(tasksFile.GetOr(SampleTasks));
  }

  lemma CompleteKeepsValid(s: TimerState, now: int, stamp: string)
    requires Valid(s) && CompletionDue(s, now)
    ensures Valid(CompleteCurrentTask(s, stamp).state)
  {
  }

  lemma TogglePauseKeepsValid(s: TimerState, now: int)
    requires Valid(s)
    ensures Valid(TogglePause(s, now))
  {
    if s.running && s.paused {
      var r := TogglePause(s, now);
      assert ScheduleStart(r) == ScheduleStart(s) + PauseLength(s, now);
    }
  }

  /** Every event keeps the state valid. */
  lemma ApplyKeepsValid(s: TimerState, e: Event)
    requires Valid(s)
    ensures Valid(Apply(s, e).state)
  {
    match e
    case StartKey(now) =>
    case PauseKey(now) => TogglePauseKeepsValid(s, now);
    case TickEvent(now, stamp) =>
      if CompletionDue(s, now) {
        CompleteKeepsValid(s, now, stamp);
      }
    case DismissKey =>
    case RestartKey(f) => LoadedPositive(f.GetOr(SampleTasks));
  }

  /** Any run of events from a valid state (the start-up state, say) ends in a valid state. */
  lemma {:induction false} RunKeepsValid(s: TimerState, es: seq<Event>)
    requires Valid(s)
    ensures Valid(Run(s, es))
    decreases |es|
  {
    if es != [] {
      ApplyKeepsValid(s, es[0]);
      RunKeepsValid(Apply(s, es[0]).state, es[1..]);
    }
  }

  // ---------------------------------------------------------------------------
  // What completion, resuming and ticking do to the schedule
  // ---------------------------------------------------------------------------

  /** Truncating a sum loses at most one millisecond against truncating its parts. */
  lemma MsOfSumBounds(a: Decimal, b: Decimal)
    ensures MinutesToMs(a) + MinutesToMs(b) <= MinutesToMs(Add(a, b)) <= MinutesToMs(a) + MinutesToMs(b) + 1
  {
    var s := MinutesToMs(Add(a, b));
    var x, y := MinutesToMs(a), MinutesToMs(b);
    MinutesToMsFloor(Add(a, b));
    MinutesToMsFloor(a);
    MinutesToMsFloor(b);
    assert Value(Add(a, b)) * 60000.0 == Value(a) * 60000.0 + Value(b) * 60000.0;
    assert s < x + y + 2;
    assert x + y < s + 1;
  }

  /**
   * After a completion the new head starts where the finished task was
   * scheduled to end, or one truncated millisecond later.
   */
  lemma CompletionStartsNextAtEnd(s: TimerState, now: int, stamp: string)
    requires Valid(s) && CompletionDue(s, now) && |s.tasks| > 1
    ensures var r := CompleteCurrentTask(s, stamp).state;
            s.tasks[0].times.value.end <= r.tasks[0].times.value.start <= s.tasks[0].times.value.end + 1
  {
    var r := CompleteCurrentTask(s, stamp).state;
    MsOfSumBounds(s.completed, s.tasks[0].spec.duration);
    assert ScheduleStart(r) == s.queueStart.value + MinutesToMs(Add(s.completed, s.tasks[0].spec.duration)) + s.pausedMs;
  }

  /**
   * When the finished task lasted a whole number of milliseconds, the tasks
   * left keep exactly the times they were scheduled for: the new head starts
   * at the finished task's end.
   */
  lemma CompletionKeepsSchedule(s: TimerState, now: int, stamp: string)
    requires Valid(s) && CompletionDue(s, now) && |s.tasks| > 1
    requires WholeMs(s.tasks[0].spec.duration)
    ensures CompleteCurrentTask(s, stamp).state.tasks == s.tasks[1..]
  {
    var r := CompleteCurrentTask(s, stamp).state;
    MsOfSum(s.completed, s.tasks[0].spec.duration);
    assert ScheduleStart(r) == ScheduleStart(s) + DurationMs(s.tasks[0]);
    LaidOutTail(s.tasks, ScheduleStart(s));
    assert Specs(s.tasks[1..]) == Specs(s.tasks)[1..];
    LaidOutUnique(r.tasks, s.tasks[1..], ScheduleStart(r));
  }

  /**
   * The tasks file written on completion reads back, through `loadTasks`, as
   * the tasks left in the queue when each of them lasts whole minutes.
   */
  lemma CompletionSavesQueue(s: TimerState, stamp: string)
    requires 0 <= s.current < |s.tasks|
    requires forall i :: 0 <= i < |s.tasks| ==> WellFormedTask(s.tasks[i].spec)
    requires WholeMinuteTasks(Specs(s.tasks))
    ensures var r := CompleteCurrentTask(s, stamp);
            r.effects[1].SaveTasks? && LoadTasks(r.effects[1].text) == Normalized(Specs(r.state.tasks))
  {
    var rest := SavedRest(s, stamp);
    LoadTasksText(rest);
  }

  /** With the reader that accepts decimal minutes, the saved file always reads back as the tasks left. */
  lemma CompletionSavesQueueCorrected(s: TimerState, stamp: string)
    requires 0 <= s.current < |s.tasks|
    requires forall i :: 0 <= i < |s.tasks| ==> WellFormedTask(s.tasks[i].spec)
    ensures var r := CompleteCurrentTask(s, stamp);
            r.effects[1].SaveTasks? && LoadTasksCorrected(r.effects[1].text) == Normalized(Specs(r.state.tasks))
  {
    var rest := SavedRest(s, stamp);
    LoadTasksTextCorrected(rest);
  }

  /** The tasks saved on completion: those after the head, well formed, and whole minutes when the queue was. */
  lemma SavedRest(s: TimerState, stamp: string) returns (rest: seq<TaskSpec>)
    requires 0 <= s.current < |s.tasks|
    requires forall i :: 0 <= i < |s.tasks| ==> WellFormedTask(s.tasks[i].spec)
    ensures var r := CompleteCurrentTask(s, stamp);
            r.effects[1] == SaveTasks(TasksText(rest)) && rest == Specs(r.state.tasks)
    ensures forall i :: 0 <= i < |rest| ==> WellFormedTask(rest[i])
    ensures WholeMinuteTasks(Specs(s.tasks)) ==> WholeMinuteTasks(rest)
  {
    var r := CompleteCurrentTask(s, stamp);
    rest := Specs(s.tasks)[1..];
    assert r.effects[1] == SaveTasks(TasksText(rest));
    forall i | 0 <= i < |rest| ensures WellFormedTask(rest[i]) {
      assert rest[i] == s.tasks[i + 1].spec;
    }
  }

  /** Resuming moves every scheduled task later by exactly the length of the pause. */
  lemma ResumeShiftsSchedule(s: TimerState, now: int, i: nat)
    requires s.running && s.paused && s.pauseStart.Some? && LaidOutFrom(s.tasks, ScheduleStart(s)) && i < |s.tasks|
    ensures var r := TogglePause(s, now);
            var d := now - s.pauseStart.value;
            r.tasks[i].times == Some(Span(s.tasks[i].times.value.start + d, s.tasks[i].times.value.end + d))
  {
    var r := TogglePause(s, now);
    var d := now - s.pauseStart.value;
    assert Specs(r.tasks) == Specs(s.tasks) && LaidOutFrom(r.tasks, ScheduleStart(s) + d) by {
      ResumeLaysOut(s, now);
    }
    ShiftedLayout(s.tasks, r.tasks, ScheduleStart(s), d, i);
  }

  /** Resuming lays the same queue out again, from the old schedule start plus the pause. */
  lemma ResumeLaysOut(s: TimerState, now: int)
    requires s.running && s.paused && s.pauseStart.Some?
    ensures var r := TogglePause(s, now);
            Specs(r.tasks) == Specs(s.tasks) && LaidOutFrom(r.tasks, ScheduleStart(s) + (now - s.pauseStart.value))
  {
    assert PauseLength(s, now) == now - s.pauseStart.value;
  }

  /** Two layouts of the same queue, one starting `d` later, differ by `d` in every span. */
  lemma ShiftedLayout(a: seq<Task>, b: seq<Task>, from: int, d: int, i: nat)
    requires LaidOutFrom(a, from) && LaidOutFrom(b, from + d) && Specs(a) == Specs(b) && i < |a|
    ensures b[i].times == Some(Span(a[i].times.value.start + d, a[i].times.value.end + d))
  {
    LaidOutSpan(a, from, i);
    LaidOutSpan(b, from + d, i);
    PrefixMsOfSpecs(b, a, i);
    PrefixMsOfSpecs(b, a, i + 1);
  }

  /** Ticking stops nothing and starts nothing: the alert goes up exactly when the running, unpaused head is due. */
  lemma TickRaisesAlertWhenDue(s: TimerState, now: int, stamp: string)
    requires Valid(s)
    ensures Tick(s, now, stamp).state.chiming != s.chiming <==>
              s.running && !s.paused && !s.chiming && now >= s.tasks[0].times.value.end
  {
  }

  // ---------------------------------------------------------------------------
  // The countdown (`updateUI`)
  // ---------------------------------------------------------------------------

  /** `Math.ceil(a / b)` for a positive divisor. */
  function CeilDiv(a: int, b: int): (r: int)
    requires b > 0
    ensures (r - 1) * b < a <= r * b
  {
    var q := (-a) / b;
    assert q * b <= -a < q * b + b;
    -q
  }

  /** Bounds on an integer carry over to its quotient by a positive integer. */
  lemma DivideBounds(lo: int, n: int, hi: int, p: nat)
    requires p >= 1 && lo * p < n <= hi * p
    ensures lo as real < n as real / p as real <= hi as real
  {
    assert (lo * p) as real == lo as real * p as real;
    assert (hi * p) as real == hi as real * p as real;
    assert lo as real * p as real < n as real <= hi as real * p as real;
  }

  lemma LeftScaled(d: Decimal, elapsed: nat)
    ensures Value(d) * 60000.0 - elapsed as real ==
              (d.units * MsPerMinute - elapsed * Pow10(d.scale)) as real / Pow10(d.scale) as real
  {
    ScaledValue(d);
    assert (elapsed * Pow10(d.scale)) as real == elapsed as real * Pow10(d.scale) as real;
  }

  /**
   * `Math.max(0, Math.ceil((duration * 60000 - elapsed) / 1000))`: the whole
   * seconds still to go, rounded up, zero once the task's time is used up.
   */
  function SecondsLeft(d: Decimal, elapsed: nat): (r: nat)
    ensures var left := Value(d) * 60000.0 - elapsed as real;
            && (r == 0 <==> left <= 0.0)
            && (r > 0 ==> (r - 1) as real * 1000.0 < left <= r as real * 1000.0)
  {
    var p := Pow10(d.scale);
    var c := CeilDiv(d.units * MsPerMinute - elapsed * p, 1000 * p);
    CeilSeconds(d, elapsed, c);
    if c <= 0 then 0 else c
  }

  /** The rounded-up seconds `c` of what is left bracket it within one second. */
  lemma CeilSeconds(d: Decimal, elapsed: nat, c: int)
    requires c == CeilDiv(d.units * MsPerMinute - elapsed * Pow10(d.scale), 1000 * Pow10(d.scale))
    ensures (c - 1) as real * 1000.0 < Value(d) * 60000.0 - elapsed as real <= c as real * 1000.0
  {
    var p := Pow10(d.scale);
    var n := d.units * MsPerMinute - elapsed * p;
    LeftScaled(d, elapsed);
    MulRegroup(c - 1, p);
    MulRegroup(c, p);
    DivideBounds((c - 1) * 1000, n, c * 1000, p);
  }

  lemma MulRegroup(a: int, p: int)
    ensures a * (1000 * p) == (a * 1000) * p
  {
  }

  /** What the countdown box shows for the task timer. */
  datatype CountdownView =
    | NoTask                // `--:--` or the bar placeholder
    | CompletedBanner       // `!!! TASK COMPLETE - Press "d" to dismiss !!!`
    | Unchanged             // the current task has no start: `updateUI` returns early
    | SecondsToGo(seconds: nat)

  /** The milliseconds of the current task used so far: up to the pause instant while paused, never negative. */
  function Elapsed(s: TimerState, start: int, now: int): (r: nat)
    ensures var effective := if s.paused then s.pauseStart.GetOr(0) else now;
            r >= effective - start && (r == 0 || r == effective - start)
  {
    var effective := if s.paused then s.pauseStart.GetOr(0) else now;
    if effective - start < 0 then 0 else effective - start
  }

  /**
   * The countdown: nothing without a running current task, the banner while
   * the completion alert is up, and otherwise the seconds left of the current
   * task, counted up to the pause instant while paused.
   */
  function TimerCountdown(s: TimerState, now: int): (r: CountdownView)
    ensures r.SecondsToGo? <==>
              && s.running && 0 <= s.current < |s.tasks| && !(s.chiming && s.lastCompleted.Some?)
              && s.tasks[s.current].times.Some?
    ensures r.NoTask? <==> !s.running || s.current < 0 || s.current >= |s.tasks|
    ensures r.CompletedBanner? <==> s.running && 0 <= s.current < |s.tasks| && s.chiming && s.lastCompleted.Some?
    ensures r.Unchanged? <==>
              && s.running && 0 <= s.current < |s.tasks| && !(s.chiming && s.lastCompleted.Some?)
              && s.tasks[s.current].times.None?
    ensures r.SecondsToGo? ==>
              var task := s.tasks[s.current];
              r.seconds == SecondsLeft(task.spec.duration, Elapsed(s, task.times.value.start, now))
  {
    if !s.running || s.current < 0 || s.current >= |s.tasks| then NoTask
    else if s.chiming && s.lastCompleted.Some? then CompletedBanner
    else
      var task := s.tasks[s.current];
      match task.times
      case None => Unchanged
      case Some(span) => SecondsToGo(SecondsLeft(task.spec.duration, Elapsed(s, span.start, now)))
  }

  /** While paused the countdown stands still. */
  lemma PausedCountdownFrozen(s: TimerState, a: int, b: int)
    requires s.paused
    ensures TimerCountdown(s, a) == TimerCountdown(s, b)
  {
  }

  /**
   * While the queue runs unpaused with no alert up, the countdown reaches
   * zero exactly when the tick would complete the current task (for a task
   * lasting a whole number of milliseconds).
   */
  lemma CountdownZeroWhenDue(s: TimerState, now: int)
    requires Valid(s) && s.running && !s.paused && !s.chiming
    requires WholeMs(s.tasks[0].spec.duration)
    ensures TimerCountdown(s, now) == SecondsToGo(0) <==> CompletionDue(s, now)
  {
    var span := s.tasks[0].times.value;
    var d := s.tasks[0].spec.duration;
    PositiveValue(d);
    assert span.end == span.start + MinutesToMs(d);
    assert MinutesToMs(d) as real == Value(d) * 60000.0;
    var e := Elapsed(s, span.start, now);
    assert SecondsLeft(d, e) == 0 <==> MinutesToMs(d) <= e;
  }

  // ---------------------------------------------------------------------------
  // The calendar (`renderCalendar`)
  // ---------------------------------------------------------------------------

  /** `tasks.reduce((sum, task) => sum + task.duration, 0)` over the first `n` tasks. */
  function TotalMinutes(ts: seq<Task>, n: nat): (r: Decimal)
    requires n <= |ts|
  {
    if n == 0 then Zero else Add(TotalMinutes(ts, n - 1), ts[n - 1].spec.duration)
  }

  /** With every duration a whole number of milliseconds, the total truncates to the sum of the lengths. */
  lemma {:induction false} TotalMinutesMs(ts: seq<Task>, n: nat)
    requires n <= |ts|
    requires forall i :: 0 <= i < |ts| ==> WholeMs(ts[i].spec.duration)
    ensures MinutesToMs(TotalMinutes(ts, n)) == PrefixMs(ts, n)
    decreases n
  {
    if n > 0 {
      TotalMinutesMs(ts, n - 1);
      MsOfSum(TotalMinutes(ts, n - 1), ts[n - 1].spec.duration);
    }
  }

  /**
   * The queue the calendar draws: the live schedule while running or paused,
   * otherwise a projection of the queue laid out from now.
   */
  function CalendarQueue(s: TimerState, now: int): (r: seq<Task>)
    ensures Specs(r) == Specs(s.tasks)
    ensures s.running || s.paused ==> r == s.tasks
    ensures !s.running && !s.paused ==> LaidOutFrom(r, now)
  {
    if s.running || s.paused then s.tasks else LayOut(s.tasks, now)
  }

  /** Pressing start now would lay the queue out exactly as the idle projection draws it. */
  lemma ProjectionIsStart(s: TimerState, now: int)
    requires !s.running && !s.paused && s.tasks != []
    ensures CalendarQueue(s, now) == Start(s, now).tasks
  {
    LaidOutUnique(CalendarQueue(s, now), Start(s, now).tasks, now);
  }

  /** The instant the calendar window must reach back to: the queue's first start, or now. */
  function Earliest(s: TimerState, now: int): int
    requires s.tasks != []
  {
    if s.running || s.paused then (match s.tasks[0].times case Some(span) => span.start case None => now)
    else now
  }

  /** The instant the window must reach: the last task's end, or now plus the queue's total minutes. */
  function Latest(s: TimerState, now: int): int
    requires s.tasks != []
  {
    if s.running || s.paused then (match s.tasks[|s.tasks| - 1].times case Some(span) => span.end case None => now)
    else now + MinutesToMs(TotalMinutes(s.tasks, |s.tasks|))
  }

  /**
   * The hours the calendar shows: from now's hour to six hours on, and with
   * tasks queued, widened to an hour before the queue's start and two hours
   * past its end, within the day. Only that widening is clipped at 23:00: an
   * empty queue late in the day runs on into hours 24 and later.
   */
  function CalendarWindow(s: TimerState, now: int): (r: (int, int))
    ensures 0 <= r.0 <= HourOf(now)
    ensures r.1 >= Min(23, HourOf(now) + 6)
    ensures s.tasks == [] ==> r == (HourOf(now), HourOf(now) + 6)
    ensures s.tasks != [] ==> r.1 <= 23
    ensures s.tasks != [] ==> r.0 <= Max(0, HourOf(Earliest(s, now)) - 1) && r.1 >= Min(23, HourOf(Latest(s, now)) + 2)
    ensures s.tasks != [] ==>
              r.0 >= Min(HourOf(now), HourOf(Earliest(s, now)) - 1) && r.1 <= Max(HourOf(now) + 6, HourOf(Latest(s, now)) + 2)
    ensures s.tasks != [] ==> r.0 == 0 || r.0 == HourOf(now) || r.0 == HourOf(Earliest(s, now)) - 1
    ensures s.tasks != [] ==> r.1 == 23 || r.1 == HourOf(now) + 6 || r.1 == HourOf(Latest(s, now)) + 2
  {
    HourAndMinute(now);
    var startHour := HourOf(now);
    var endHour := startHour + 6;
    if s.tasks == [] then (startHour, endHour)
    else
      (Max(0, Min(startHour, HourOf(Earliest(s, now)) - 1)), Min(23, Max(endHour, HourOf(Latest(s, now)) + 2)))
  }

  /**
   * An idle queue's projection starts now and ends where the window's latest
   * instant is computed from the total minutes (durations being whole
   * milliseconds), so the window reaches two hours past the projection.
   */
  lemma WindowCoversProjection(s: TimerState, now: int)
    requires !s.running && !s.paused && s.tasks != []
    requires forall i :: 0 <= i < |s.tasks| ==> WholeMs(s.tasks[i].spec.duration)
    ensures var q := CalendarQueue(s, now);
            && q[0].times.value.start == now
            && q[|q| - 1].times.value.end == Latest(s, now)
            && CalendarWindow(s, now).1 >= Min(23, HourOf(q[|q| - 1].times.value.end) + 2)
  {
    ProjectionEnd(s, now);
    var q := CalendarQueue(s, now);
    assert q[0].times.value.start == now;
  }

  /** The idle projection's last task ends at now plus the total of the durations. */
  lemma ProjectionEnd(s: TimerState, now: int)
    requires !s.running && !s.paused && s.tasks != []
    requires forall i :: 0 <= i < |s.tasks| ==> WholeMs(s.tasks[i].spec.duration)
    ensures var q := CalendarQueue(s, now);
            |q| == |s.tasks| && q[|q| - 1].times.value.end == now + MinutesToMs(TotalMinutes(s.tasks, |s.tasks|))
  {
    var q := CalendarQueue(s, now);
    var n := |q|;
    assert n == |Specs(q)| == |Specs(s.tasks)| == |s.tasks|;
    LaidOutSpan(q, now, n - 1);
    PrefixMsOfSpecs(q, s.tasks, n);
    TotalMinutesMs(s.tasks, n);
  }

  /** The calendar for the task timer: the window's slots, the drawn queue's spans, and the NOW line. */
  function TaskCalendar(s: TimerState, now: int): seq<Row> {
    var w := CalendarWindow(s, now);
    Calendar(w.0, w.1, Spans(CalendarQueue(s, now)), now)
  }
}
