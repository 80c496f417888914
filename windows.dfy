/**
 * Query windows: a local calendar period (day, week, month) at the fixed
 * offset of UTC+7, turned into a pair of UTC instants, both ends inclusive,
 * and the overlap rule every interval query uses.
 */
module Windows {
  import opened Wrappers
  import opened Calendar
  import opened TimeFormat

  /** `[utcStart, utcEnd]`, both ends inclusive, as the SQL `<=`/`>=` test them. */
  datatype Window = Window(utcStart: Instant, utcEnd: Instant)

  predicate Contains(w: Window, t: Instant) {
    w.utcStart <= t <= w.utcEnd
  }

  /** Every instant of `inner` is in `outer`. */
  predicate Within(inner: Window, outer: Window) {
    outer.utcStart <= inner.utcStart && inner.utcEnd <= outer.utcEnd
  }

  /** The UTC instant at local 00:00:00 of the day with ordinal `n`: `local - LOCAL_OFFSET`. */
  function LocalMidnightUtc(n: int): Instant {
    (n - 1) * SecondsPerDay - LocalOffset
  }

  /** Local 00:00:00 to 23:59:59 of the day with ordinal `n`, in UTC. */
  function DayWindowAt(n: int): Window {
    Window(LocalMidnightUtc(n), LocalMidnightUtc(n) + SecondsPerDay - 1)
  }

  /**
   * `get_day_intervals_for_user_in_chat`: `time(0, 0, 0)` to `time(23, 59, 59)`
   * of `d`, minus the offset.
   */
  function DayWindow(d: Date): Window
    requires ValidDate(d)
  {
    DayWindowAt(Ordinal(d))
  }

  /** `today_local_date()`: the local calendar date of `now`. */
  function LocalDate(now: Instant): (d: Date)
    requires Representable(now + LocalOffset)
    ensures ValidDate(d)
  {
    DayDecomposition(now + LocalOffset);
    FromOrdinal((now + LocalOffset) / SecondsPerDay + 1)
  }

  /** An instant lies in exactly one local day window: that of its local date. */
  lemma DayWindowOfInstant(now: Instant, d: Date)
    requires Representable(now + LocalOffset) && ValidDate(d)
    ensures Contains(DayWindow(d), now) <==> d == LocalDate(now)
  {
    var n := (now + LocalOffset) / SecondsPerDay + 1;
    DayDecomposition(now + LocalOffset);
    if d == LocalDate(now) {
      assert Ordinal(d) == n;
    }
    if Contains(DayWindow(d), now) {
      var k := Ordinal(d) - 1;
      assert k * SecondsPerDay <= now + LocalOffset < k * SecondsPerDay + SecondsPerDay;
      DivModUnique(now + LocalOffset, k, now + LocalOffset - k * SecondsPerDay);
      OrdinalInjective(d, LocalDate(now));
    }
  }

  /** Consecutive local days tile the time line with no gap and no overlap. */
  lemma DayWindowsTile(n: int)
    ensures DayWindowAt(n + 1).utcStart == DayWindowAt(n).utcEnd + 1
    ensures DayWindowAt(n).utcEnd - DayWindowAt(n).utcStart == SecondsPerDay - 1
  {
  }

  // ---------------------------------------------------------------------
  // Report windows (`send_report_for_chat`)
  // ---------------------------------------------------------------------

  datatype Period = Daily | Weekly | Monthly

  /** The `period` strings `send_report_for_chat` knows; any other returns early. */
  function ParsePeriod(s: string): Option<Period> {
    if s == "daily" then Some(Daily)
    else if s == "weekly" then Some(Weekly)
    else if s == "monthly" then Some(Monthly)
    else None
  }

  /**
   * `date - timedelta(seconds=s)` on a day ordinal: a `date` adds only the
   * `days` part of a `timedelta`, and `timedelta(seconds=s).days` is `s // 86400`.
   */
  function DateMinusSeconds(ordinal: int, s: nat): int {
    ordinal - s / SecondsPerDay
  }

  /** The first of the month after `d`'s month; December rolls over to January of the next year. */
  function NextMonthFirst(d: Date): (r: Date)
    requires 1 <= d.month <= 12
  {
    if d.month == 12 then Date(d.year + 1, 1, 1) else Date(d.year, d.month + 1, 1)
  }

  /**
   * Daily report: `time.min` to `time.max`. The microseconds of `time.max`
   * are dropped by `to_str`, and with whole-second row times they never move
   * a floored minute count, so the end is 23:59:59.
   */
  function ReportDayWindow(d: Date): Window
    requires ValidDate(d)
  {
    Window(LocalMidnightUtc(Ordinal(d)), LocalMidnightUtc(Ordinal(d)) + 23 * 3600 + 59 * 60 + 59)
  }

  /** Weekly report: from Monday 00:00:00 of `d`'s week, plus 6 days 23:59:59. */
  function WeekWindow(d: Date): Window
    requires ValidDate(d)
  {
    var monday := Ordinal(d) - Weekday(d);
    var start := LocalMidnightUtc(monday);
    Window(start, start + 6 * SecondsPerDay + 23 * 3600 + 59 * 60 + 59)
  }

  /**
   * Monthly report: from the 1st 00:00:00 to `combine(next_month -
   * timedelta(seconds=1), time.max)`. The subtraction leaves the date alone,
   * so the window ends at 23:59:59 of the first day of the next month.
   */
  function MonthWindow(d: Date): Window
    requires ValidDate(d)
  {
    var first := Date(d.year, d.month, 1);
    var lastDay := DateMinusSeconds(Ordinal(NextMonthFirst(d)), 1);
    Window(LocalMidnightUtc(Ordinal(first)), LocalMidnightUtc(lastDay) + 23 * 3600 + 59 * 60 + 59)
  }

  /** The window of a report for `period` at `base`; `None` for an unknown period. */
  function PeriodWindow(period: string, base: Date): (w: Option<Window>)
    requires ValidDate(base)
    ensures w.None? <==> ParsePeriod(period).None?
  {
    match ParsePeriod(period)
    case None => None
    case Some(Daily) => Some(ReportDayWindow(base))
    case Some(Weekly) => Some(WeekWindow(base))
    case Some(Monthly) => Some(MonthWindow(base))
  }

  /** The daily report and the daily summary use the same window. */
  lemma ReportDayIsDayWindow(d: Date)
    requires ValidDate(d)
    ensures ReportDayWindow(d) == DayWindow(d)
  {
  }

  /**
   * The weekly window starts at local midnight of a Monday no later than `d`,
   * and lasts exactly seven days, so it covers `d`.
   */
  lemma WeekWindowShape(d: Date)
    requires ValidDate(d)
    ensures var w := WeekWindow(d);
      var monday := Ordinal(d) - Weekday(d);
      && w.utcStart == DayWindowAt(monday).utcStart
      && (monday + 6) % 7 == 0
      && 1 <= monday <= Ordinal(d) <= monday + 6
      && w.utcEnd == DayWindowAt(monday + 6).utcEnd
      && w.utcEnd - w.utcStart == 7 * SecondsPerDay - 1
      && Within(DayWindow(d), w)
  {
    OrdinalBounds(d);
    MondayOf(Ordinal(d));
  }

  /** The weekly window's first day, whatever date holds its ordinal, has weekday 0: a Monday (`Calendar.MondayAnchors`). */
  lemma WeekStartsOnMonday(d: Date, first: Date)
    requires ValidDate(d) && ValidDate(first)
    requires Ordinal(first) == Ordinal(d) - Weekday(d)
    ensures Weekday(first) == 0
  {
    MondayOf(Ordinal(d));
  }

  /** Going back `(o + 6) % 7` days from day `o` lands on a Monday at most six days earlier. */
  lemma MondayOf(o: int)
    requires o >= 1
    ensures var monday := o - (o + 6) % 7;
      (monday + 6) % 7 == 0 && 1 <= monday <= o <= monday + 6
  {
    var q, r := (o + 6) / 7, (o + 6) % 7;
    assert o + 6 == 7 * q + r;
    assert o - r + 6 == 7 * q;
  }

  /** The month window starts at local midnight of the 1st and, because of the no-op subtraction, ends with the first day of the next month. */
  lemma MonthWindowShape(d: Date)
    requires ValidDate(d)
    ensures var w := MonthWindow(d);
      && w.utcStart == DayWindow(Date(d.year, d.month, 1)).utcStart
      && w.utcEnd == DayWindowAt(Ordinal(NextMonthFirst(d))).utcEnd
      && Ordinal(NextMonthFirst(d)) == Ordinal(Date(d.year, d.month, 1)) + DaysInMonth(d.year, d.month)
      && w.utcEnd - w.utcStart == (DaysInMonth(d.year, d.month) + 1) * SecondsPerDay - 1
  {
    if d.month < 12 {
      DaysBeforeMonthStep(d.year, d.month);
    } else {
      DaysBeforeMonthLast(d.year);
      DaysBeforeYearStep(d.year);
    }
  }

  /**
   * The local days the monthly report covers: every day of the base month and
   * the first day of the following month, and no other.
   */
  lemma MonthWindowDays(d: Date, e: Date)
    requires ValidDate(d) && ValidDate(e)
    ensures Within(DayWindow(e), MonthWindow(d)) <==>
      (e.year == d.year && e.month == d.month) || e == NextMonthFirst(d)
  {
    MonthWindowShape(d);
    var first := Date(d.year, d.month, 1);
    var last := Date(d.year, d.month, DaysInMonth(d.year, d.month));
    var next := NextMonthFirst(d);
    var dim := DaysInMonth(d.year, d.month);
    assert Ordinal(last) == Ordinal(first) + dim - 1;
    var inside := Ordinal(first) <= Ordinal(e) <= Ordinal(first) + dim;
    assert Within(DayWindow(e), MonthWindow(d)) <==> inside;
    if e.year == d.year && e.month == d.month {
      assert inside;
    }
    if inside && !(e.year == d.year && e.month == d.month) {
      if Ordinal(e) == Ordinal(first) + dim {
        OrdinalBounds(e);
        assert next.year <= MaxYear && ValidDate(next);
        OrdinalInjective(e, next);
      } else if DateLt(e, first) {
        OrdinalStrictMono(e, first);
      } else if DateLt(last, e) {
        OrdinalStrictMono(last, e);
      }
    }
  }

  // ---------------------------------------------------------------------
  // The overlap rule of the interval queries
  // ---------------------------------------------------------------------

  /**
   * `start_time <= utc_end AND (end_time IS NULL OR end_time >= utc_start)`:
   * an interval is selected when it starts by the window's end and is open or
   * ends at or after the window's start.
   */
  predicate Overlaps(start: Instant, end: Option<Instant>, w: Window) {
    start <= w.utcEnd && (end.None? || end.value >= w.utcStart)
  }

  /** The same clause as SQLite evaluates it, on the stored texts. */
  predicate SqlOverlaps(startText: string, endText: Option<string>, w: Window)
    requires Representable(w.utcStart) && Representable(w.utcEnd)
  {
    LexLe(startText, ToStr(w.utcEnd)) && (endText.None? || LexLe(ToStr(w.utcStart), endText.value))
  }

  function StoredText(t: Option<Instant>): Option<string>
    requires t.Some? ==> Representable(t.value)
  {
    match t
    case None => None
    case Some(v) => Some(ToStr(v))
  }

  /** On stored texts the SQL clause selects exactly the rows the instant comparison does. */
  lemma SqlOverlapsIff(start: Instant, end: Option<Instant>, w: Window)
    requires Representable(start) && (end.Some? ==> Representable(end.value))
    requires Representable(w.utcStart) && Representable(w.utcEnd)
    ensures SqlOverlaps(ToStr(start), StoredText(end), w) <==> Overlaps(start, end, w)
  {
    ToStrOrder(start, w.utcEnd);
    if end.Some? {
      ToStrOrder(w.utcStart, end.value);
    }
  }

  /**
   * Both ends are inclusive: an interval that ends exactly at local midnight
   * is selected for the day before and for the day after.
   */
  lemma MidnightEndSelectedTwice(n: int, start: Instant)
    requires DayWindowAt(n).utcStart <= start <= DayWindowAt(n).utcEnd
    ensures var midnight := DayWindowAt(n + 1).utcStart;
      Overlaps(start, Some(midnight), DayWindowAt(n)) && Overlaps(start, Some(midnight), DayWindowAt(n + 1))
  {
  }
}
