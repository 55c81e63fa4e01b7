# chime-cli scheduling core, modelled in Dafny

chime-cli is a pair of terminal timers:

- **hourlychime-cli** chimes at fixed clock times read from a `chimes.txt` file.
- **taskchime-cli** runs a queue of named tasks one after another.
- **generate_clock_pomodoro.py** writes Pomodoro schedules in the chime file's format.

This project models the deterministic core under the terminal UI of all three:

- **Chime schedule parser.** `parseChimeConfig` turns lines `HH:MM[ - label[ - N min|hour[s]]]` into intervals. The intervals are sorted by start, missing durations are inferred, and start/end alert points are derived with the back-to-back collapse rule (`chime_schedule.dfy`, module `ChimeSchedule`).
- **Chime tracker.** It covers the current/next lookup, the countdown target of `updateUI` and the alert de-duplication of `checkAlerts`. It also covers the line rewrite of `postponeFutureTasks` and the window of hours of the chime calendar (`chime_tracker.dfy`, `ChimeTracker`).
- **Countdown formatter.** This is the digital `MM:SS`/`HH:MM` text and the 20-block hour bar, shared by both apps (`countdown.dfy`, `Countdown`).
- **Calendar grid.** It holds the quarter-hour slots, which item covers each slot (head or continuation line), and the single NOW line (`timeline.dfy`, `Timeline`).
- **Task grammar.** It covers `parseDuration`, `parseTaskLine`, `loadTasks` and the `name - N min` write-back (`task_grammar.dfy`, `TaskGrammar`). `LoadTasks` and the timer read lines exactly as the source does. A reader that also accepts decimal minutes (`ParseTaskLine`, `LoadTasksCorrected`) is kept beside it for the finding below. Exact decimal durations are in `decimal.dfy` (`Decimals`).
- **Task timer.** The flags, index and accumulators form an explicit `TimerState` record. Every key handler and the tick is a pure transition taking `now`. File writes, the alert and the notification are returned as `Effect` values. This file also holds `calculateSchedule`, the countdown, the idle projection and the calendar window (`task_timer.dfy`, `TaskTimer`).
- **Pomodoro generator.** It models `format_entry`, `build_pomodoro` and the default start rule. A generated line with a positive duration reads back through the chime parser as the same time, name and duration (`pomodoro.dfy`, `Pomodoro`).

Helper modules:

- `Wrappers`: `Option`, `Result` and the `.filter(Boolean)` of parse results.
- `Text`: JavaScript white space, `trim`, `split('\n')`/`join('\n')`, numerals and padding.
- `Clock`: instants and `HH:MM`.
- `Sorting`: the stable insertion sort standing for `Array.prototype.sort`, which is stable since ES2019.

## Time and numbers

- **Instants.** An instant is an integer number of milliseconds since local midnight. A chime line's `HH:MM` is `(HH * 60 + MM) * 60000`. `setHours` rolls `HH >= 24` or `MM >= 60` linearly into later minutes, and so does the model.
- **Clock readings.** `getHours`, `getMinutes` and `formatTime` take the instant modulo the day. Daylight-saving jumps are not modelled.
- **Chime durations** are integers, since they come from `parseInt`.
- **Task durations** are exact decimals `units / 10^scale` minutes, because the source reads hours with `parseFloat` (`1.5 hours`). Where the source builds a `Date` from a fractional millisecond count, the constructor truncates, and `MinutesToMs` does the same.
- **Divergence from IEEE.** IEEE rounding of `parseFloat(x) * 60` is not modelled. For example, `0.1 hours` is exactly 6 minutes here.
- **The bar fill.** `Math.round(progress * 20)` is modelled as integer rounding of the shown seconds to 180-second blocks, halves rounding up. The floating-point product can fall on either side of a half where the integer rounding does not.

## Behaviour worth knowing (the model follows the code)

- **Inferred durations.** An explicit `0 min` is treated like a missing duration and inferred from the gap, because the code tests `duration === 0`.
- **Where the NOW line goes.** Its position is decided on minutes of the day: it goes before the first slot whose minute is not before now's and is after the previous slot's. The exact timestamps are not used.
- **Head lines.** The second disjunct of the calendar's `isFirstLine` test can never hold inside the coverage test that surrounds it. So a covered slot is a head line exactly when it starts at the item's start.
- **Late schedules.** A chime schedule that starts in the day's last hour and ends the next day before 21:00 gets an empty window. The calendar then shows only the NOW line (`ChimeTracker.LateEndEmptiesCalendar`).
- **The bar at one hour.** Exactly one hour left draws a full bar plus ` +1h`, which reads like two hours (`Countdown.OneHourShowsFullBarPlusOne`).
- **Task calendar with an empty queue.** The window is now's hour to six hours on, with no clipping at 23:00. Late in the day it runs into hours 24 and later, which the calendar draws as the next day's quarter hours (`TaskTimer.CalendarWindow`).
- **Reloading fractional minutes.** The tasks file the app rewrites on completion reads back unchanged only when every remaining task lasts whole minutes (`TaskTimer.CompletionSavesQueue`). A fractional count such as `7.5 min` reloads as the digits after the point (see "## Findings").
- **Dashed task names.** A loaded name can contain a `-` after its first character, for instance from `a-b -<CR>5 min`, where the carriage return after the separator stops the name group from ending at the first dash. Such a name does not survive the completion write-back: `a-b - 5 min` reloads under a shorter name (`TaskGrammar.DashedNameExample`, `TaskGrammar.DashedNameShortens`). The round-trip lemmas therefore require well-formed names.
- **Windows line endings.** A task line ending in `\r` never parses, because `.` refuses the carriage return (`TaskGrammar.CarriageReturnLine`).

## Model

| member | source | states |
|---|---|---|
| `Text.Trim` | hourlychime-cli/hourlychime-cli.js:297-298 | the trimmed line is the line with white space removed only before and after it: it is a slice of the line with only white space around it; it is empty exactly when the line is all white space, and otherwise starts and ends with a non-space |
| `Text.TrimUnique` | hourlychime-cli/hourlychime-cli.js:297-298 | any slice of the line with only white space around it that starts and ends with a non-space (or is empty) is the trimmed line |
| `Text.SplitLines` | hourlychime-cli/hourlychime-cli.js:293 | the file splits into at least one newline-free line, and joining the lines with newlines gives the file back |
| `Text.SplitJoin` | hourlychime-cli/hourlychime-cli.js:771 | splitting a join of newline-free lines gives the same lines back, so a rewrite keeps the line count |
| `Sorting.StableSort` | hourlychime-cli/hourlychime-cli.js:322 | the result is sorted by key and is a permutation of the input; elements with equal keys keep their input order |
| `Sorting.StableSortOrdersTies` | hourlychime-cli/hourlychime-cli.js:322 | when the input is ordered by a tie key, elements with equal sort keys stay ordered by it |
| `Clock.HourAndMinute` | hourlychime-cli/hourlychime-cli.js:553-554 | hours lie in 0..23 and minutes in 0..59, and `hours * 60 + minutes` is the instant's minute of the day |
| `Clock.ClockPrefix` | hourlychime-cli/hourlychime-cli.js:753-756 | a leading `HH:MM` is found exactly when the line starts with two digits, a colon and two digits, and reads as at most 99*60+99 minutes |
| `Clock.FormatTime` | hourlychime-cli/hourlychime-cli.js:416-418 | the text is two digits, a colon and two digits; the fields are the instant's hours (below 24) and minutes (below 60), and the text reads back as the instant's minute of the day |
| `Clock.FormatClock` | hourlychime-cli/generate_clock_pomodoro.py:23 | `%H:%M` of a minute count is two digits, a colon and two digits, with hours below 24 and minutes below 60, and reads back as that count wrapped to the day |
| `ChimeSchedule.LabelGroup` | hourlychime-cli/hourlychime-cli.js:300 | the tail of the line pattern matches without a label exactly when it is all white space; a captured label is a single-line suffix of the tail, not starting with white space, preceded by white space around exactly one dash; there is no match exactly when no such dash is followed by a single line |
| `ChimeSchedule.ParseChimeLine` | hourlychime-cli/hourlychime-cli.js:296-318 | a line is accepted exactly when its trim starts with `HH:MM` and the rest matches the pattern; the entry keeps the raw line index, the `HH:MM` text and the start on a whole minute; its label is non-empty and trimmed, and its duration is not negative |
| `ChimeSchedule.UnlabeledLine` | hourlychime-cli/hourlychime-cli.js:303-317 | a line with no label, or with nothing after the dash, gets the label `Untitled Chime` and duration 0 |
| `ChimeSchedule.DefaultLabelUnchanged` | hourlychime-cli/hourlychime-cli.js:302-317 | `Untitled Chime`, put in for a missing label, has no duration suffix and trims to itself, so the entry keeps it with duration 0 |
| `ChimeSchedule.LabeledEntry` | hourlychime-cli/hourlychime-cli.js:302-318 | the entry has the line's index and time and starts on a whole minute at `HH:MM`; a missing or empty label gives `Untitled Chime` and duration 0; a label without a duration suffix is kept (trimmed, defaulted when blank) with duration 0; a label with one gives the suffix's minutes and the name before it, trimmed and defaulted |
| `ChimeSchedule.LabelOrDefault` | hourlychime-cli/hourlychime-cli.js:317-318 | the kept label is the trimmed label, or `Untitled Chime` exactly when the trim is empty; it is never empty and is its own trim |
| `ChimeSchedule.DurationSuffixExactly` | hourlychime-cli/hourlychime-cli.js:306-311 | a label has a duration suffix exactly when it ends in a dash, a number and `min`/`hour`, an optional `s`, any ASCII case, white space allowed around the dash and before the unit; the suffix then gives the number in minutes, or 60 times it for hours, and the name before the dash without its trailing white space |
| `ChimeSchedule.LineWithDuration` | hourlychime-cli/hourlychime-cli.js:300-318 | a line whose label ends in such a suffix becomes an entry with the suffix's minutes and the trimmed name before it, or `Untitled Chime` when that name is blank |
| `ChimeSchedule.LineWithoutDuration` | hourlychime-cli/hourlychime-cli.js:300-318 | a line whose label has no such suffix keeps the whole label, trimmed, with duration 0 |
| `ChimeSchedule.EntriesFromLines` | hourlychime-cli/hourlychime-cli.js:296-320 | the accepted entries are in file order, with strictly increasing line indices, and each is the parse of the line its index names |
| `ChimeSchedule.InferDurations` | hourlychime-cli/hourlychime-cli.js:325-334 | every field except the duration is kept; a known duration is kept; an unknown last duration becomes 15; every interval ends `duration` minutes after it starts |
| `ChimeSchedule.InferredMeetsNext` | hourlychime-cli/hourlychime-cli.js:326-333 | in sorted whole-minute entries, an interval whose duration was inferred ends exactly where the next one starts, so it collapses into the next start |
| `ChimeSchedule.IntervalsOfSorted` | hourlychime-cli/hourlychime-cli.js:322-334 | inference from sorted entries keeps them sorted with ties in index order and pairwise distinct; no duration is negative, and every inferred one ends at the next start |
| `ChimeSchedule.AlertPoints` | hourlychime-cli/hourlychime-cli.js:349 | the alert points are sorted by instant and are a permutation of the points derived interval by interval; points at the same instant keep that derived order (interval order, a start before its own end), as the stable sort does, which decides which of them `checkAlerts` fires |
| `ChimeSchedule.AlertPointCounts` | hourlychime-cli/hourlychime-cli.js:337-349 | for distinct intervals, each has exactly one start point; it has an end point exactly when the next interval does not begin at its end; there are no other points |
| `ChimeSchedule.ConfigIntervalsOrdered` | hourlychime-cli/hourlychime-cli.js:322-334 | the parsed intervals are sorted by start with ties in file order and pairwise distinct; each ends `duration` minutes after its start, with a non-negative duration |
| `ChimeSchedule.ConfigIntervalsFromLines` | hourlychime-cli/hourlychime-cli.js:296-334 | every interval keeps its line's time, label, start and stated duration; a line without a duration runs to the next start, or for 15 minutes when last |
| `ChimeSchedule.ConfigKeepsEveryLine` | hourlychime-cli/hourlychime-cli.js:296-322 | every line the parser accepts has an interval carrying its line index |
| `ChimeSchedule.ConfigAlertPoints` | hourlychime-cli/hourlychime-cli.js:336-351 | the parsed alert points are sorted, points at one instant keep interval order with a start before its end, and they hold exactly one start per interval, an end unless the interval collapses, and nothing else |
| `ChimeTracker.FindCurrent` | hourlychime-cli/hourlychime-cli.js:397-403 | the current interval contains `now`, and no later-indexed one does; there is none only when no interval contains `now` |
| `ChimeTracker.FindNext` | hourlychime-cli/hourlychime-cli.js:405-411 | the next interval starts after `now`, and every earlier-indexed one starts at or before `now`; there is none only when nothing starts after `now` |
| `ChimeTracker.NextIsEarliest` | hourlychime-cli/hourlychime-cli.js:405-411 | in a sorted schedule the next interval starts no later than any other interval still to start, and everything from it on lies in the future |
| `ChimeTracker.CountdownTarget` | hourlychime-cli/hourlychime-cli.js:675-682 | the target is the current interval's end, else the next start, else none; it is always after `now`, and it exists exactly when some interval is running or still to start |
| `ChimeTracker.CountdownDisplay` | hourlychime-cli/hourlychime-cli.js:684-692 | the countdown text is always set: the placeholder without a target, otherwise the countdown of the rounded seconds to the target |
| `ChimeTracker.CheckAlerts` | hourlychime-cli/hourlychime-cli.js:586-605 | only the latest due point is a candidate; it fires exactly when its instant differs from the last one fired, and firing records that instant |
| `ChimeTracker.CheckAlertsIdempotent` | hourlychime-cli/hourlychime-cli.js:592-603 | a second check at the same instant fires nothing |
| `ChimeTracker.FiredIsLatestDue` | hourlychime-cli/hourlychime-cli.js:589-598 | with sorted points, no due point lies after the one that fires, so skipped earlier points never fire |
| `ChimeTracker.CheckStep` | hourlychime-cli/hourlychime-cli.js:590-604 | a check at a later time keeps the last fired instant a due point and never fires an instant at or before it |
| `ChimeTracker.FiredIncreasing` | hourlychime-cli/hourlychime-cli.js:586-605 | over sorted points and non-decreasing check times, the fired instants strictly increase: no instant fires twice, and all lie after the one fired before |
| `ChimeTracker.PostponeLine` | hourlychime-cli/hourlychime-cli.js:753-767 | a line is rewritten exactly when it starts with `HH:MM` later than `now`; the rewrite has the same length and tail, with the time 15 minutes later wrapped to the day |
| `ChimeTracker.PostponedLines` | hourlychime-cli/hourlychime-cli.js:752-768 | the line count is kept, and each line is its rewrite or is left unchanged |
| `ChimeTracker.Postpone` | hourlychime-cli/hourlychime-cli.js:747-775 | the file is rewritten exactly when some line starts in the future |
| `ChimeTracker.PostponeLines` | hourlychime-cli/hourlychime-cli.js:749-771 | the rewritten file splits into as many lines as before; future lines read back 15 minutes later with the same tail, and all other lines are unchanged |
| `ChimeTracker.ChimeWindow` | hourlychime-cli/hourlychime-cli.js:482-489 | the window is the whole day with no intervals; otherwise it opens at hour 0 or an hour before the first start's hour, and closes at 23 or an hour after the last end's hour, within 0..23 |
| `ChimeTracker.ChimeWindowCoversStarts` | hourlychime-cli/hourlychime-cli.js:485-508 | for a sorted schedule within one day, the window opens no later than any interval's start |
| `ChimeTracker.LateEndEmptiesCalendar` | hourlychime-cli/hourlychime-cli.js:485-496 | a schedule starting after 23:00 and ending the next day before 21:00 gets an empty window; the calendar is the NOW line alone |
| `Countdown.RoundSeconds` | hourlychime-cli/hourlychime-cli.js:421 | the rounded seconds are within half a second of the milliseconds, halves rounding up |
| `Countdown.ClampSeconds` | hourlychime-cli/hourlychime-cli.js:422 | a negative count becomes 0 and any other count is kept |
| `Countdown.DigitalFields` | hourlychime-cli/hourlychime-cli.js:425-433 | the second field is below 60; the fields read as seconds under an hour and as whole minutes from an hour on; the first field is below 100 under 100 hours |
| `Countdown.DigitalText` | hourlychime-cli/hourlychime-cli.js:424-433 | the text is `a:b` with digit fields and `b` below 60; `a * 60 + b` is the seconds under an hour and the whole minutes from an hour on; `a` has no leading zero beyond two digits; the text is 5 characters under 100 hours |
| `Countdown.DigitalZero` | hourlychime-cli/hourlychime-cli.js:430-432 | zero seconds read `00:00` |
| `Countdown.DigitalOneHour` | hourlychime-cli/hourlychime-cli.js:425-428 | 3600 seconds read `01:00` |
| `Countdown.DigitalLastSecond` | hourlychime-cli/hourlychime-cli.js:429-432 | 3599 seconds read `59:59` |
| `Countdown.ShownSeconds` | hourlychime-cli/hourlychime-cli.js:436-441 | the bar shows the count modulo an hour, at most an hour: zero for zero and something for any positive count |
| `Countdown.ProgressBar` | hourlychime-cli/hourlychime-cli.js:436-469 | filled plus empty blocks make 20; the filled blocks round the shown seconds to 180-second blocks; the hour count is the whole hours left and decides the style; zero gives an empty bar; a positive exact hour gives a full bar |
| `Countdown.OneHourShowsFullBarPlusOne` | hourlychime-cli/hourlychime-cli.js:439-468 | one hour left draws 20 filled blocks, no empty ones, and ` +1h` |
| `Countdown.RenderBar` | hourlychime-cli/hourlychime-cli.js:450-470 | the text is the filled characters, then the empty ones up to 20, then the ` +Nh` suffix |
| `Countdown.FormatCountdown` | hourlychime-cli/hourlychime-cli.js:420-423 | the text is the countdown of the whole second nearest to the milliseconds; anything under half a second, negatives included, shows as zero |
| `Countdown.Placeholder` | hourlychime-cli/hourlychime-cli.js:689-692 | the placeholder is `--:--` in digital mode, and otherwise five `■` with Unicode support or five `=` without |
| `Timeline.Slots` | hourlychime-cli/hourlychime-cli.js:495-508 | the window gives four slots per hour, none when it is empty; slot `k` is `k` quarter hours after the window's first hour |
| `Timeline.SlotMinutesInDay` | hourlychime-cli/hourlychime-cli.js:553-556 | within one day, slot `k`'s minute of the day is the first hour's minute plus `15k` |
| `Timeline.Cells` | hourlychime-cli/hourlychime-cli.js:510-544 | a slot is blank exactly when no item covers it (`start <= t < end`); otherwise it shows the last covering item, as a head line exactly when the slot is the item's start |
| `Timeline.NowIndexFrom` | hourlychime-cli/hourlychime-cli.js:551-563 | NOW goes before the first slot where now's minute is after the previous slot's and at or before this one's, or at the end when there is no such slot |
| `Timeline.Rows` | hourlychime-cli/hourlychime-cli.js:546-581 | the calendar has one line per slot plus exactly one NOW line; the slots keep their order and cells around it |
| `Timeline.NowBeforeFirstLater` | hourlychime-cli/hourlychime-cli.js:551-581 | with strictly increasing slot minutes, every slot before NOW is before now's minute, and the slot after NOW is at or after it |
| `TaskGrammar.SkipSpaces` | taskchime-cli/taskchime-cli.js:356 | the greedy `\s*` stops at the first non-space or at the end |
| `TaskGrammar.ParseDurationWith` | taskchime-cli/taskchime-cli.js:345-353 | the duration is 60 times the first `<number> hour` match plus the first `<integer> min` match on the lower-cased text; it is present exactly when that total is positive |
| `TaskGrammar.GroupStart` | taskchime-cli/taskchime-cli.js:356 | the duration group exists exactly when white space, one dash and white space lead from the split point to a single line running to the end; it starts at the latest such position, as the greedy `\s*` leaves it |
| `TaskGrammar.FirstSplit` | taskchime-cli/taskchime-cli.js:356 | the lazy name group stops at the first position, with at least one character before it, where the rest of the pattern matches; there is none only when no position allows a match |
| `TaskGrammar.ParseTaskLineWith` | taskchime-cli/taskchime-cli.js:355-362 | a line gives a task exactly when the pattern finds its first split and the trimmed duration group reads as a positive duration; the name is the trimmed text before the split and the duration is what the group reads as |
| `TaskGrammar.NoDashLine` | taskchime-cli/taskchime-cli.js:356-357 | a line without a `-` is rejected |
| `TaskGrammar.CarriageReturnLine` | taskchime-cli/taskchime-cli.js:356-357 | a line ending in a carriage return is rejected |
| `Wrappers.SomeIndicesFrom` | taskchime-cli/taskchime-cli.js:370 | the positions, from a given one on, that hold a value: each such position once, in increasing order, and no other |
| `Wrappers.SomesAtIndices` | taskchime-cli/taskchime-cli.js:370 | `.filter(Boolean)` over the per-line parses keeps exactly the present values: as many as there are positions holding one, the i-th being the value at the i-th such position |
| `TaskGrammar.AcceptedLines` | taskchime-cli/taskchime-cli.js:364-371 | the numbers of the lines that parse: every line that parses is listed, once, and the list increases |
| `TaskGrammar.LoadTasksWith` | taskchime-cli/taskchime-cli.js:364-371 | the i-th loaded task is the parse of the i-th line that parses, so the tasks keep file order and no parsing line is dropped or repeated; every loaded task is the parse of some line |
| `TaskGrammar.LoadTasksText` | taskchime-cli/taskchime-cli.js:742-743 | a rewritten tasks file of whole-minute tasks, each with a well-formed name (non-empty, one line, no white space at either end, no `-` after its first character), loads back through `loadTasks` as the queue that was written, durations in shortest form |
| `TaskGrammar.LoadTasksTextCorrected` | taskchime-cli/taskchime-cli.js:742-743 | with the reader that accepts decimal minutes, a rewritten tasks file whose tasks each have a well-formed name (non-empty, one line, no white space at either end, no `-` after its first character) loads back as the queue that was written |
| `TaskGrammar.FractionalReloadExample` | taskchime-cli/taskchime-cli.js:364-371 | the file written for `Read` at 7.5 minutes loads back through `loadTasks` as `Read` at 5 minutes, and through the corrected reader as written |
| `TaskGrammar.TaskLineRoundTrip` | taskchime-cli/taskchime-cli.js:742 | for a task with a well-formed name (non-empty, one line, no white space at either end, no `-` after its first character), the written line `name - N min` parses back, with the decimal-minute reader, to the same name and duration |
| `TaskGrammar.TaskLineRoundTripAsWritten` | taskchime-cli/taskchime-cli.js:350 | for a task with a well-formed name, whole minutes survive the write-back even with the source's integer-minute reader |
| `TaskGrammar.DashedNameShortens` | taskchime-cli/taskchime-cli.js:356 | a name with a `-` after its first character does not survive the write-back: the lazy name group stops at that dash at the latest, so the line reads back, if at all, under a name no longer than the part before the dash |
| `TaskGrammar.CarriageReturnAfterDash` | taskchime-cli/taskchime-cli.js:355-362 | a line `name -<CR>N min` loads under the whole name, dashes inside it included, because the group `(.+)` cannot start before the carriage return, which `\s*` skips |
| `TaskGrammar.DashedNameExample` | taskchime-cli/taskchime-cli.js:355-362 | the file line `a-b -<CR>5 min` loads as the task `a-b`, whose write-back `a-b - 5 min` does not read back as it |
| `TaskGrammar.HoursLineReads` | taskchime-cli/taskchime-cli.js:348-349 | `name - X hours` parses to the name and `60 * X` minutes |
| `TaskGrammar.TaskLineAsWrittenFraction` | taskchime-cli/taskchime-cli.js:350 | with the source's reader, a written fractional minute count reads back as the digits after the point |
| `TaskGrammar.FractionalWriteBackExample` | taskchime-cli/taskchime-cli.js:742 | `Read` at 7.5 minutes is written `Read - 7.5 min`; the source's reader takes that as 5 minutes, the corrected reader as 7.5 |
| `TaskTimer.MinutesToMsFloor` | taskchime-cli/taskchime-cli.js:422 | the milliseconds of a duration are its exact length truncated |
| `TaskTimer.LayOut` | taskchime-cli/taskchime-cli.js:418-424 | the laid-out queue keeps the tasks; the first starts at the given instant; each lasts its own duration and starts where the previous one ends |
| `TaskTimer.LaidOutUnique` | taskchime-cli/taskchime-cli.js:418-424 | two back-to-back layouts of the same queue from the same instant are equal |
| `TaskTimer.CalculateSchedule` | taskchime-cli/taskchime-cli.js:409-425 | only the tasks change; an idle queue loses every time; a running or paused queue is laid out back to back from queue start plus completed minutes plus paused time |
| `TaskTimer.LoadQueue` | taskchime-cli/taskchime-cli.js:364-371 | the queue is the tasks file, or the two sample tasks when there is none, parsed line by line as `loadTasks` does, with no times |
| `TaskTimer.NonEmptyLines` | taskchime-cli/taskchime-cli.js:378 | the kept log lines are the non-empty lines of the file, each as often as it occurs |
| `TaskTimer.NonEmptyLinesConcat` | taskchime-cli/taskchime-cli.js:378 | filtering a concatenation filters each part in turn, so the lines keep their order |
| `TaskTimer.Initial` | taskchime-cli/taskchime-cli.js:364-379 | the start-up state is idle with index -1, with the queue `loadTasks` reads, unscheduled; the log is the non-empty lines of the log file, or empty when there is none |
| `TaskTimer.InitialValid` | taskchime-cli/taskchime-cli.js:364-379 | the start-up state satisfies the state invariant |
| `TaskTimer.Start` | taskchime-cli/taskchime-cli.js:780-791 | a no-op when running or when the queue is empty; otherwise the state is running, unpaused, index 0, started at `now`, both accumulators 0, the queue laid out from `now` |
| `TaskTimer.TogglePause` | taskchime-cli/taskchime-cli.js:793-806 | a no-op when not running; pausing records `now`; resuming adds the pause length to the paused time and lays the queue out that much later; the paused time never decreases |
| `TaskTimer.ResumeShiftsSchedule` | taskchime-cli/taskchime-cli.js:799-802 | resuming moves every task's start and end later by exactly the pause length |
| `TaskTimer.CompleteCurrentTask` | taskchime-cli/taskchime-cli.js:728-766 | drops exactly the head; appends one log entry; adds the head's minutes to the completed total; raises the alert with the finished task remembered; emits the log append, the rewritten tasks file, the alert and the notification; an emptied queue stops with index -1 |
| `TaskTimer.CompletionStartsNextAtEnd` | taskchime-cli/taskchime-cli.js:741-751 | after a completion the new head starts at the finished task's end, or at most one truncated millisecond later |
| `TaskTimer.CompletionKeepsSchedule` | taskchime-cli/taskchime-cli.js:741-751 | when the finished task lasts whole milliseconds, the remaining tasks keep exactly their scheduled times |
| `TaskTimer.CompletionSavesQueue` | taskchime-cli/taskchime-cli.js:740-743 | when every task lasts whole minutes and has a well-formed name (non-empty, one line, no white space at either end, no `-` after its first character), the tasks file written on completion loads back through `loadTasks` as the remaining queue |
| `TaskTimer.CompletionSavesQueueCorrected` | taskchime-cli/taskchime-cli.js:740-743 | with the reader that accepts decimal minutes, when every task has a well-formed name (non-empty, one line, no white space at either end, no `-` after its first character), the tasks file written on completion loads back as the remaining queue |
| `TaskTimer.Tick` | taskchime-cli/taskchime-cli.js:696-706 | a tick completes the current task exactly when the timer is running, unpaused, not chiming and past the task's end; otherwise nothing changes |
| `TaskTimer.TickRaisesAlertWhenDue` | taskchime-cli/taskchime-cli.js:696-704 | in a valid state the alert flag changes on a tick exactly when the running, unpaused, quiet head has reached its end |
| `TaskTimer.DismissAndContinue` | taskchime-cli/taskchime-cli.js:768-778 | a no-op without an alert; otherwise clears the alert and the remembered task and changes nothing else |
| `TaskTimer.Restart` | taskchime-cli/taskchime-cli.js:808-825 | always ends not running, not paused, not chiming, index -1, both accumulators 0, an empty log and the queue `loadTasks` reads, without times |
| `TaskTimer.ApplyKeepsValid` | taskchime-cli/taskchime-cli.js:696-825 | every key press and tick keeps the state invariant |
| `TaskTimer.RunKeepsValid` | taskchime-cli/taskchime-cli.js:696-825 | every run of events from a valid state ends in a valid state |
| `TaskTimer.SecondsLeft` | taskchime-cli/taskchime-cli.js:625-627 | the seconds left round the remaining time up, and are zero exactly when the task's time is used up |
| `TaskTimer.TimerCountdown` | taskchime-cli/taskchime-cli.js:601-627 | the placeholder shows exactly when nothing runs; the completion banner shows exactly when a current task runs while the alert for a completed task is up; the view is left as it was exactly when the current task has no start; otherwise the countdown is the seconds left of that task after the time elapsed since its start, up to the pause instant while paused |
| `TaskTimer.Elapsed` | taskchime-cli/taskchime-cli.js:624-625 | the elapsed time is the time from the task's start to now (to the pause instant while paused), or 0 when that is negative |
| `TaskTimer.PausedCountdownFrozen` | taskchime-cli/taskchime-cli.js:624-627 | while paused the countdown does not depend on `now` |
| `TaskTimer.CountdownZeroWhenDue` | taskchime-cli/taskchime-cli.js:622-627 | while running unpaused and quiet, with a head task of whole milliseconds, the countdown reaches zero exactly when the tick would complete the task |
| `TaskTimer.CalendarQueue` | taskchime-cli/taskchime-cli.js:480-491 | the drawn queue keeps the tasks; it is the live schedule while running or paused, and otherwise a projection laid out from `now` |
| `TaskTimer.ProjectionIsStart` | taskchime-cli/taskchime-cli.js:484-490 | the idle projection is exactly the layout that pressing start at `now` would produce |
| `TaskTimer.ProjectionEnd` | taskchime-cli/taskchime-cli.js:447-450 | when every duration is a whole number of milliseconds, the projection's last task ends at `now` plus the queue's total minutes |
| `TaskTimer.CalendarWindow` | taskchime-cli/taskchime-cli.js:434-455 | an empty queue shows exactly now's hour to six hours on, unclipped. With tasks, the window opens at the earlier of now's hour and an hour before the earliest start's hour, raised to 0 if negative. It closes at the later of six hours after now's hour and two hours after the latest end's hour, lowered to 23. Lower and upper bounds together pin both ends |
| `TaskTimer.WindowCoversProjection` | taskchime-cli/taskchime-cli.js:447-454 | for an idle queue of whole-millisecond durations the projection starts at `now`, and the window reaches two hours past its last end (clipped to 23) |
| `Pomodoro.FormatEntry` | hourlychime-cli/generate_clock_pomodoro.py:22-30 | the line starts with the time wrapped to the day, then ` - name`, then ` - N min` only when the duration is given and non-zero |
| `Pomodoro.AddCycle` | hourlychime-cli/generate_clock_pomodoro.py:35-45 | one cycle appends its work line and, unless it is the last, the break after it; a zero long-break period fails exactly when a break is due |
| `Pomodoro.BuildPlan` | hourlychime-cli/generate_clock_pomodoro.py:32-46 | `2 * cycles - 1` lines for at least one cycle and none otherwise, alternating `Work i` and breaks; each break is long exactly on multiples of the period; each line starts where the previous one ends; a zero period fails exactly with two cycles or more |
| `Pomodoro.BuildPomodoro` | hourlychime-cli/generate_clock_pomodoro.py:32-46 | the schedule is the plan's lines, formatted, and fails exactly as the plan does |
| `Pomodoro.WorkLine` | hourlychime-cli/generate_clock_pomodoro.py:37-38 | line `2(i-1)` is `Work i` of the work length, and the next line starts a work length later |
| `Pomodoro.BreakLine` | hourlychime-cli/generate_clock_pomodoro.py:41-45 | line `2i-1` is the break after cycle `i`, and the next line starts that break's length later |
| `Pomodoro.HalfHourStart` | hourlychime-cli/generate_clock_pomodoro.py:49-58 | the start is a half hour of the day, at most now's minute of the day and less than 30 minutes before it |
| `Pomodoro.DefaultStartTime` | hourlychime-cli/generate_clock_pomodoro.py:49-60 | the text is two digits, a colon and two digits, hours below 24 and minutes below 60, reading as the latest half hour not after now |
| `Pomodoro.EntryReadsBack` | hourlychime-cli/hourlychime-cli.js:300-311 | a line `format_entry` writes with a positive duration and a plain name parses back to the same time, name and minutes |
| `Pomodoro.PlanReadsBack` | hourlychime-cli/generate_clock_pomodoro.py:32-46 | when the work, short-break and long-break lengths are all positive, every line of a generated plan parses back through the chime parser as its start, name and length |

## Left out

- The terminal UI is not modelled: the blessed screen, chalk colours, `updateStatusBar`, `renderConfigBox`, the alert-history box and the text of the Current/Next lines. Only the choice of what is shown is modelled.
- `triggerChime`, `startBeep`/`stopBeep`/`dismissBeep`, `notifier.notify` and the `setInterval` timers are side effects. `CheckAlerts` returns the point that fires. The task timer returns its effects as `Effect` values, and its timers are not modelled.
- `openInVim` and `recreateScreen` in both apps are not modelled, including the pause folded around the editor session. They spawn processes and rebuild the screen.
- File I/O is not modelled (`fs` reads, writes, appends, the seeding of missing files). File contents are string inputs. A missing file is `None`, which loads the sample text for the tasks file.
- `TaskTimer.Restart`: the deletion of the completed-log file is not returned as an effect. Only the emptied in-memory log is stated.
- `loadConfig`/`saveConfig` JSON persistence is not modelled. The digital/bar toggle and Unicode detection (`detectUnicodeSupport`) are boolean parameters.
- The `toLocaleTimeString` stamp of log entries is locale-dependent. It is the `stamp` parameter.
- The calendar cells' text, padding, 25-character name cut and colour tiers are not modelled. Only which item covers a slot, head or continuation, is modelled.
- `get_input`, `main`, `parse_time` and the hard-coded append path of the Python script are interactive I/O.
- Floating point is not modelled: decimal hours are exact decimals, and the bar fill is integer rounding (see "Time and numbers").
- NumberText: writes every duration in plain decimal form. `String(x)` uses exponent form below 1e-6 and from 1e21 up (`6e-7`), and no such write-back is modelled.
- TaskLineRoundTrip, LoadTasksText, CompletionSavesQueue and their decimal-minute twins require well-formed names. An empty name, which a line such as ` - 5 min` loads, also reads back after the write-back, but the lemmas do not cover it. A name with a `-` after its first character does not read back (see "Dashed task names").
- Dates and time zones are replaced by instants in milliseconds since local midnight. Daylight-saving changes are not modelled.

## Findings

| source | as written | input that shows it | evidently intended | confidence | as-written member | corrected member |
|---|---|---|---|---|---|---|
| taskchime-cli/taskchime-cli.js:350 | minutes are read with `(\d+)\s*min`, but the app writes durations back as `String(duration) min`, which can be fractional | a task `Read - 0.125 hours` (7.5 minutes) is rewritten on the next completion as `Read - 7.5 min`, which reads back as 5 minutes | the tasks file the app writes reads back with the same durations | high for the exact decimal model; not executed | `TaskGrammar.TaskLineAsWrittenFraction` | `TaskGrammar.LoadTasksTextCorrected` |
