/** Week arithmetic (src/shared/utils/date.ts `getMonday`,
    src/app/hooks/useVisibleDates.ts). Instants are milliseconds, days are day
    numbers with day 0 a Monday; `Weekday` is JavaScript's `getDay()`
    (0 = Sunday, 1 = Monday, ..., 6 = Saturday). */
module Calendar {
  import opened Domain

  function Weekday(day: int): (w: int)
    ensures 0 <= w < 7
  {
    (day + 1) % 7
  }

  /** The day number holding instant `t` (local midnight at or before it). */
  function DayOf(t: int): int {
    t / DAY_MS
  }

  /** Position of a `dayIndex` inside a Monday-first week: Monday 0, ...,
      Sunday 6 (`dayIndex === 0 ? 6 : dayIndex - 1`). */
  function MondayOffset(dayIndex: int): int {
    if dayIndex == 0 then 6 else dayIndex - 1
  }

  /** `getMonday(d)`: midnight of the Monday of `t`'s week; a Sunday belongs
      to the week that began six days earlier. */
  function GetMonday(t: int): (r: int)
    ensures r % DAY_MS == 0
    ensures r <= t < r + 7 * DAY_MS
    ensures Weekday(r / DAY_MS) == 1
    ensures Weekday(DayOf(t)) == 0 ==> r / DAY_MS == DayOf(t) - 6
  {
    var day := DayOf(t);
    var w := Weekday(day);
    var monday := day - w + (if w == 0 then -6 else 1);
    assert day * DAY_MS <= t < day * DAY_MS + DAY_MS;
    assert (monday * DAY_MS) / DAY_MS == monday;
    monday * DAY_MS
  }

  /** There is exactly one Monday midnight in the week ending at `t`: the
      one `GetMonday` returns. */
  lemma GetMondayUnique(t: int, m: int)
    requires m % DAY_MS == 0 && Weekday(m / DAY_MS) == 1
    requires m <= t < m + 7 * DAY_MS
    ensures m == GetMonday(t)
  {
    var r := GetMonday(t);
    var a, b := m / DAY_MS, r / DAY_MS;
    assert m == a * DAY_MS && r == b * DAY_MS;
    assert -7 < a - b < 7;
    assert (a + 1) % 7 == (b + 1) % 7;
    assert (a - b) % 7 == 0;
  }

  /** Taking the Monday of a Monday changes nothing. */
  lemma GetMondayIdempotent(t: int)
    ensures GetMonday(GetMonday(t)) == GetMonday(t)
  {
    var r := GetMonday(t);
    GetMondayUnique(r, r);
  }

  /** The start of an hour slot of a week, as the ledger and the history
      list compute it: the week's Monday, plus the slot's Monday-based
      offset in days, at the slot's hour. */
  function SlotStart(weekStart: int, dayIndex: int, hour: int): int {
    (weekStart + MondayOffset(dayIndex)) * DAY_MS + hour * HOUR_MS
  }

  /** A slot of a Monday-started week falls on the day of the week its
      `dayIndex` names, inside that week. */
  lemma SlotStartInWeek(weekStart: int, dayIndex: int, hour: int)
    requires Weekday(weekStart) == 1
    requires 0 <= dayIndex < 7 && 0 <= hour < 24
    ensures weekStart * DAY_MS <= SlotStart(weekStart, dayIndex, hour) < (weekStart + 7) * DAY_MS
    ensures DayOf(SlotStart(weekStart, dayIndex, hour)) == weekStart + MondayOffset(dayIndex)
    ensures Weekday(DayOf(SlotStart(weekStart, dayIndex, hour))) == dayIndex
  {
    var day := weekStart + MondayOffset(dayIndex);
    var t := SlotStart(weekStart, dayIndex, hour);
    assert day * DAY_MS <= t < day * DAY_MS + DAY_MS;
    assert t / DAY_MS == day;
  }

  /** The day-view mapping from a Monday-based offset to a `dayIndex`. */
  const WEEK_ORDER: seq<int> := [1, 2, 3, 4, 5, 6, 0]

  /** `MondayOffset` and `WEEK_ORDER` are inverse bijections on 0..6. */
  lemma OffsetBijection(offset: int, dayIndex: int)
    requires 0 <= offset < 7 && 0 <= dayIndex < 7
    ensures WEEK_ORDER[offset] == dayIndex <==> MondayOffset(dayIndex) == offset
  {
  }

  lemma WeekOrderIsPermutation()
    ensures forall d :: 0 <= d < 7 ==> d in WEEK_ORDER
    ensures forall i, j :: 0 <= i < j < 7 ==> WEEK_ORDER[i] != WEEK_ORDER[j]
  {
    assert WEEK_ORDER[6] == 0 && WEEK_ORDER[0] == 1;
  }

  datatype ViewMode = WeekView | DayView

  /** One visible grid column: its calendar day and its `dayIndex`. */
  datatype VisibleDay = VisibleDay(date: int, dayIndex: int)

  /** `useVisibleDates`: the seven days of the week Monday to Sunday, or the
      single day `dayOffset` days after the week's Monday. The application
      keeps `dayOffset` within 0..6 (see AppView.Navigate). */
  function VisibleDates(weekStart: int, mode: ViewMode, dayOffset: int): (r: seq<VisibleDay>)
    requires mode == DayView ==> 0 <= dayOffset < 7
    ensures mode == WeekView ==> |r| == 7
    ensures mode == DayView ==> |r| == 1
  {
    if mode == DayView then
      [VisibleDay(weekStart + dayOffset, WEEK_ORDER[dayOffset])]
    else
      seq(7, k requires 0 <= k < 7 =>
        VisibleDay(weekStart + MondayOffset(WEEK_ORDER[k]), WEEK_ORDER[k]))
  }

  /** The week view lists Monday to Saturday then Sunday, on consecutive
      days starting at the week's Monday. */
  lemma WeekViewLayout(weekStart: int, dayOffset: int)
    requires Weekday(weekStart) == 1
    ensures var r := VisibleDates(weekStart, WeekView, dayOffset);
      && (forall k :: 0 <= k < 7 ==> r[k].date == weekStart + k)
      && (forall k :: 0 <= k < 7 ==> r[k].dayIndex == WEEK_ORDER[k])
      && (forall k :: 0 <= k < 7 ==> Weekday(r[k].date) == r[k].dayIndex)
  {
  }

  /** The day view shows exactly the `dayOffset`-th column of the week view. */
  lemma DayViewIsWeekColumn(weekStart: int, dayOffset: int)
    requires 0 <= dayOffset < 7
    ensures VisibleDates(weekStart, DayView, dayOffset)
         == [VisibleDates(weekStart, WeekView, dayOffset)[dayOffset]]
  {
  }
}
