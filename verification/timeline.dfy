/**
 * The calendar grid both apps draw (`renderCalendar` in hourlychime-cli.js
 * and taskchime-cli.js): quarter-hour slots over a window of hours, each slot
 * showing the last item that covers it (as the head line when the item
 * starts on the slot, as a continuation otherwise), and one NOW line placed
 * before the first slot whose minute of the day is not before now's.
 * Colours, padding and the cell text are not modelled.
 */
module Timeline {
  import opened Wrappers
  import opened Clock

  const MsPerQuarter := 15 * MsPerMinute

  /** Slot `quarter` (0 to 3) of hour `hour`; hours past 23 roll into the next day. */
  datatype Slot = Slot(hour: int, quarter: nat)

  /** The slot's instant, `new Date(y, m, d, hour, quarter * 15, 0)`. */
  function SlotTime(s: Slot): int {
    s.hour * MsPerHour + s.quarter * MsPerQuarter
  }

  /** `time.getHours() * 60 + time.getMinutes()` of the slot. */
  function SlotMinutes(s: Slot): int {
    MinuteOfDay(SlotTime(s))
  }

  /** The four slots of every hour from `startHour` to `endHour`, none when the window is empty. */
  function Slots(startHour: int, endHour: int): (r: seq<Slot>)
    ensures |r| == if endHour < startHour then 0 else 4 * (endHour - startHour + 1)
    ensures forall k :: 0 <= k < |r| ==> SlotTime(r[k]) == startHour * MsPerHour + k * MsPerQuarter
  {
    var n := if endHour < startHour then 0 else 4 * (endHour - startHour + 1);
    var r := seq(n, k requires 0 <= k < n => Slot(startHour + k / 4, k % 4));
    assert forall k :: 0 <= k < n ==> SlotTime(r[k]) == startHour * MsPerHour + k * MsPerQuarter by {
      forall k | 0 <= k < n ensures SlotTime(r[k]) == startHour * MsPerHour + k * MsPerQuarter {
        assert k == 4 * (k / 4) + k % 4;
        assert SlotTime(r[k]) == (startHour + k / 4) * MsPerHour + (k % 4) * MsPerQuarter;
      }
    }
    r
  }

  /** Inside one day the slots' minutes are 15 apart, from the window's first hour. */
  lemma SlotMinutesInDay(startHour: int, endHour: int)
    requires 0 <= startHour && endHour <= 23
    ensures forall k :: 0 <= k < |Slots(startHour, endHour)| ==>
              SlotMinutes(Slots(startHour, endHour)[k]) == startHour * 60 + 15 * k
  {
    var r := Slots(startHour, endHour);
    forall k | 0 <= k < |r| ensures SlotMinutes(r[k]) == startHour * 60 + 15 * k {
      var m := startHour * 60 + 15 * k;
      assert SlotTime(r[k]) == m * MsPerMinute;
      MinuteOfDayOfMinutes(m);
      assert 0 <= m < MinutesPerDay;
    }
  }

  // ---------------------------------------------------------------------------
  // Coverage
  // ---------------------------------------------------------------------------

  /** An item's scheduled span `[start, end)`. */
  datatype Span = Span(start: int, end: int)

  /** What a slot shows: nothing, the head line of item `item`, or a continuation line of it. */
  datatype Cell = Blank | Head(item: nat) | Continuation(item: nat)

  /** Item `o` is scheduled and running at `t` (`entry.time >= start && entry.time < end`). */
  predicate CoversAt(o: Option<Span>, t: int) {
    o.Some? && o.value.start <= t < o.value.end
  }

  /** The cell after drawing the item into it: a covered slot shows the item, as head exactly at its start. */
  function Paint(c: Cell, o: Option<Span>, j: nat, t: int): Cell {
    if CoversAt(o, t) then (if t == o.value.start then Head(j) else Continuation(j)) else c
  }

  /** The item a cell shows is the last of `items[..n]` covering `t`. */
  predicate ShowsLastCovering(c: Cell, items: seq<Option<Span>>, n: nat, t: int)
    requires n <= |items|
  {
    && (c.Blank? <==> forall j :: 0 <= j < n ==> !CoversAt(items[j], t))
    && (!c.Blank? ==>
          && c.item < n && CoversAt(items[c.item], t)
          && (forall j :: c.item < j < n ==> !CoversAt(items[j], t))
          && (c.Head? <==> t == items[c.item].value.start))
  }

  /**
   * The cells after drawing `items[..n]` in order over the slots, each item
   * overwriting the slots it covers.
   */
  function Cells(slots: seq<Slot>, items: seq<Option<Span>>, n: nat): (r: seq<Cell>)
    requires n <= |items|
    ensures |r| == |slots|
    ensures forall k :: 0 <= k < |slots| ==> ShowsLastCovering(r[k], items, n, SlotTime(slots[k]))
    decreases n
  {
    if n == 0 then seq(|slots|, _ => Blank)
    else
      var before := Cells(slots, items, n - 1);
      seq(|slots|, k requires 0 <= k < |slots| => Paint(before[k], items[n - 1], n - 1, SlotTime(slots[k])))
  }

  // ---------------------------------------------------------------------------
  // The NOW line
  // ---------------------------------------------------------------------------

  /** A calendar line: the NOW marker or a slot with what it shows. */
  datatype Row = NowRow | SlotRow(slot: Slot, cell: Cell)

  /** The minute of the slot before slot `k`, `-1` before the first. */
  function PrevMinutes(slots: seq<Slot>, k: nat): int
    requires k < |slots|
  {
    if k == 0 then -1 else SlotMinutes(slots[k - 1])
  }

  /** NOW goes before slot `k` when now's minute lies after the previous slot's and not after this one's. */
  predicate NowFits(slots: seq<Slot>, k: nat, current: int)
    requires k < |slots|
  {
    PrevMinutes(slots, k) < current <= SlotMinutes(slots[k])
  }

  /** The first slot from `from` on where NOW fits, or the end. */
  function NowIndexFrom(slots: seq<Slot>, current: int, from: nat): (r: nat)
    requires from <= |slots|
    ensures from <= r <= |slots|
    ensures r < |slots| ==> NowFits(slots, r, current)
    ensures forall k :: from <= k < r ==> !NowFits(slots, k, current)
    decreases |slots| - from
  {
    if from == |slots| then from
    else if NowFits(slots, from, current) then from
    else NowIndexFrom(slots, current, from + 1)
  }

  /**
   * The calendar's lines: every slot with its cell in order, and exactly one
   * NOW line, before the first slot where it fits or after all of them.
   */
  function Rows(slots: seq<Slot>, cells: seq<Cell>, current: int): (r: seq<Row>)
    requires |cells| == |slots|
    ensures |r| == |slots| + 1
    ensures var p := NowIndexFrom(slots, current, 0);
            && r[p] == NowRow
            && (forall i :: 0 <= i < |r| && i != p ==> r[i].SlotRow?)
            && (forall k :: 0 <= k < |slots| ==> r[if k < p then k else k + 1] == SlotRow(slots[k], cells[k]))
  {
    var p := NowIndexFrom(slots, current, 0);
    var body := seq(|slots|, k requires 0 <= k < |slots| => SlotRow(slots[k], cells[k]));
    body[..p] + [NowRow] + body[p..]
  }

  /**
   * When the slots' minutes strictly increase from 0 up, NOW goes right
   * before the first slot whose minute is not before now's, or at the end.
   */
  lemma NowBeforeFirstLater(slots: seq<Slot>, current: int)
    requires 0 <= current
    requires forall i, j :: 0 <= i < j < |slots| ==> SlotMinutes(slots[i]) < SlotMinutes(slots[j])
    ensures var p := NowIndexFrom(slots, current, 0);
            && (p < |slots| ==> current <= SlotMinutes(slots[p]))
            && (forall k :: 0 <= k < p ==> SlotMinutes(slots[k]) < current)
  {
    var p := NowIndexFrom(slots, current, 0);
    forall k | 0 <= k < p ensures SlotMinutes(slots[k]) < current {
      FirstLaterBy(slots, current, k);
    }
  }

  lemma {:induction false} FirstLaterBy(slots: seq<Slot>, current: int, k: nat)
    requires 0 <= current
    requires forall i, j :: 0 <= i < j < |slots| ==> SlotMinutes(slots[i]) < SlotMinutes(slots[j])
    requires k < NowIndexFrom(slots, current, 0)
    ensures SlotMinutes(slots[k]) < current
    decreases k
  {
    assert !NowFits(slots, k, current);
    if k > 0 {
      FirstLaterBy(slots, current, k - 1);
    }
  }

  /** The calendar for a window of hours, items and the current instant. */
  function Calendar(startHour: int, endHour: int, items: seq<Option<Span>>, now: int): seq<Row> {
    var slots := Slots(startHour, endHour);
    Rows(slots, Cells(slots, items, |items|), MinuteOfDay(now))
  }
}
