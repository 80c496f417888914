/**
 * The proleptic Gregorian calendar as Python's `datetime.date` uses it:
 * years 1 to 9999, day ordinals counted from 0001-01-01 (ordinal 1, a Monday),
 * and `weekday()` with Monday = 0.
 */
module Calendar {

  const MinYear := 1
  const MaxYear := 9999
  /** Ordinal of 9999-12-31, the last day `datetime.date` can hold. */
  const MaxOrdinal := 3652059

  predicate IsLeap(y: int) {
    y % 4 == 0 && (y % 100 != 0 || y % 400 == 0)
  }

  function DaysInYear(y: int): int {
    if IsLeap(y) then 366 else 365
  }

  function DaysInMonth(y: int, m: int): int
    requires 1 <= m <= 12
  {
    if m == 2 then (if IsLeap(y) then 29 else 28)
    else if m == 4 || m == 6 || m == 9 || m == 11 then 30
    else 31
  }

  /** Days of year `y` that come before the first of month `m`. */
  function DaysBeforeMonth(y: int, m: int): int
    requires 1 <= m <= 12
  {
    var common :=
      if m == 1 then 0 else if m == 2 then 31 else if m == 3 then 59
      else if m == 4 then 90 else if m == 5 then 120 else if m == 6 then 151
      else if m == 7 then 181 else if m == 8 then 212 else if m == 9 then 243
      else if m == 10 then 273 else if m == 11 then 304 else 334;
    common + (if m > 2 && IsLeap(y) then 1 else 0)
  }

  /** Days from 0001-01-01 up to (not including) January 1 of year `y`. */
  function DaysBeforeYear(y: int): int
    requires y >= 1
  {
    var p := y - 1;
    p * 365 + p / 4 - p / 100 + p / 400
  }

  datatype Date = Date(year: int, month: int, day: int)

  /** A date `datetime.date` accepts. */
  predicate ValidDate(d: Date) {
    MinYear <= d.year <= MaxYear && 1 <= d.month <= 12 && 1 <= d.day <= DaysInMonth(d.year, d.month)
  }

  /** `date.toordinal()`; also defined for the day after 9999-12-31. */
  function Ordinal(d: Date): int
    requires d.year >= 1 && 1 <= d.month <= 12
  {
    DaysBeforeYear(d.year) + DaysBeforeMonth(d.year, d.month) + d.day
  }

  /** `date.weekday()`: Monday is 0, Sunday is 6. */
  function Weekday(d: Date): (w: int)
    requires d.year >= 1 && 1 <= d.month <= 12
    ensures 0 <= w < 7
  {
    (Ordinal(d) + 6) % 7
  }

  /** Lexicographic order on (year, month, day). */
  predicate DateLt(a: Date, b: Date) {
    a.year < b.year || (a.year == b.year && (a.month < b.month || (a.month == b.month && a.day < b.day)))
  }

  // ---------------------------------------------------------------------
  // Facts about the day counts
  // ---------------------------------------------------------------------

  lemma DaysBeforeMonthStep(y: int, m: int)
    requires 1 <= m < 12
    ensures DaysBeforeMonth(y, m + 1) == DaysBeforeMonth(y, m) + DaysInMonth(y, m)
  {
  }

  lemma DaysBeforeMonthLast(y: int)
    ensures DaysBeforeMonth(y, 12) + DaysInMonth(y, 12) == DaysInYear(y)
  {
  }

  lemma DaysBeforeYearStep(y: int)
    requires y >= 1
    ensures DaysBeforeYear(y + 1) == DaysBeforeYear(y) + DaysInYear(y)
  {
    var p := y - 1;
    DivStep4(p);
    DivStep100(p);
    DivStep400(p);
    DivisibilityChain(y);
    var leap := (if y % 4 == 0 then 1 else 0) - (if y % 100 == 0 then 1 else 0) + (if y % 400 == 0 then 1 else 0);
    assert DaysInYear(y) == 365 + leap;
    assert DaysBeforeYear(y + 1) == y * 365 + y / 4 - y / 100 + y / 400;
    assert DaysBeforeYear(y) == p * 365 + p / 4 - p / 100 + p / 400;
  }

  /** Every 400th year is a 100th year, and every 100th year a 4th one. */
  lemma DivisibilityChain(y: int)
    ensures y % 400 == 0 ==> y % 100 == 0
    ensures y % 100 == 0 ==> y % 4 == 0
  {
    if y % 400 == 0 {
      var q, d, r := y / 400, y / 100, y % 100;
      assert y == 400 * q && y == 100 * d + r;
      assert r == 100 * (4 * q - d);
    }
    if y % 100 == 0 {
      var q, d, r := y / 100, y / 4, y % 4;
      assert y == 100 * q && y == 4 * d + r;
      assert r == 4 * (25 * q - d);
    }
  }

  lemma DivStep4(p: int)
    ensures (p + 1) / 4 == p / 4 + (if (p + 1) % 4 == 0 then 1 else 0)
  {
  }

  lemma DivStep100(p: int)
    ensures (p + 1) / 100 == p / 100 + (if (p + 1) % 100 == 0 then 1 else 0)
  {
  }

  lemma DivStep400(p: int)
    ensures (p + 1) / 400 == p / 400 + (if (p + 1) % 400 == 0 then 1 else 0)
  {
  }

  /** Year `a` ends no later than year `b` begins. */
  lemma {:induction false} DaysBeforeYearMono(a: int, b: int)
    requires 1 <= a < b
    ensures DaysBeforeYear(a) + DaysInYear(a) <= DaysBeforeYear(b)
    decreases b - a
  {
    DaysBeforeYearStep(a);
    if a + 1 < b {
      DaysBeforeYearMono(a + 1, b);
      DaysBeforeYearStep(a + 1);
    }
  }

  /** Month `a` ends no later than month `b` begins. */
  lemma {:induction false} DaysBeforeMonthMono(y: int, a: int, b: int)
    requires 1 <= a < b <= 12
    ensures DaysBeforeMonth(y, a) + DaysInMonth(y, a) <= DaysBeforeMonth(y, b)
    decreases b - a
  {
    DaysBeforeMonthStep(y, a);
    if a + 1 < b {
      DaysBeforeMonthMono(y, a + 1, b);
    }
  }

  /** Where a valid date's ordinal falls: inside its year, and in the range `date.fromordinal` accepts. */
  lemma OrdinalBounds(d: Date)
    requires ValidDate(d)
    ensures DaysBeforeYear(d.year) < Ordinal(d) <= DaysBeforeYear(d.year) + DaysInYear(d.year)
    ensures 1 <= Ordinal(d) <= MaxOrdinal
  {
    if d.month < 12 {
      DaysBeforeMonthMono(d.year, d.month, 12);
    }
    DaysBeforeMonthLast(d.year);
    if d.year < MaxYear {
      DaysBeforeYearMono(d.year, MaxYear);
    }
    assert DaysBeforeYear(MaxYear) + DaysInYear(MaxYear) == MaxOrdinal;
  }

  /** The ordinal is strictly increasing in calendar order. */
  lemma OrdinalStrictMono(a: Date, b: Date)
    requires ValidDate(a) && ValidDate(b) && DateLt(a, b)
    ensures Ordinal(a) < Ordinal(b)
  {
    OrdinalBounds(a);
    OrdinalBounds(b);
    if a.year < b.year {
      DaysBeforeYearMono(a.year, b.year);
    } else if a.month < b.month {
      DaysBeforeMonthMono(a.year, a.month, b.month);
    }
  }

  /** Two valid dates with the same ordinal are the same date. */
  lemma OrdinalInjective(a: Date, b: Date)
    requires ValidDate(a) && ValidDate(b) && Ordinal(a) == Ordinal(b)
    ensures a == b
  {
    if DateLt(a, b) {
      OrdinalStrictMono(a, b);
    } else if DateLt(b, a) {
      OrdinalStrictMono(b, a);
    }
  }

  // ---------------------------------------------------------------------
  // From an ordinal back to a date
  // ---------------------------------------------------------------------

  /** The year, at or after `y`, that holds day `n`. */
  function YearOf(n: int, y: int): (r: int)
    requires MinYear <= y <= MaxYear && DaysBeforeYear(y) < n <= MaxOrdinal
    ensures y <= r <= MaxYear
    ensures DaysBeforeYear(r) < n <= DaysBeforeYear(r) + DaysInYear(r)
    decreases MaxYear - y
  {
    DaysBeforeYearStep(y);
    if n <= DaysBeforeYear(y) + DaysInYear(y) then y
    else YearOf(n, y + 1)
  }

  /** The month, at or after `m`, that holds day `k` of year `y`. */
  function MonthOf(y: int, k: int, m: int): (r: int)
    requires 1 <= m <= 12 && DaysBeforeMonth(y, m) < k <= DaysInYear(y)
    ensures m <= r <= 12
    ensures DaysBeforeMonth(y, r) < k <= DaysBeforeMonth(y, r) + DaysInMonth(y, r)
    decreases 12 - m
  {
    if m == 12 then
      DaysBeforeMonthLast(y);
      12
    else
      DaysBeforeMonthStep(y, m);
      if k <= DaysBeforeMonth(y, m) + DaysInMonth(y, m) then m else MonthOf(y, k, m + 1)
  }

  /** `date.fromordinal(n)`. */
  function FromOrdinal(n: int): (d: Date)
    requires 1 <= n <= MaxOrdinal
    ensures ValidDate(d) && Ordinal(d) == n
  {
    var y := YearOf(n, MinYear);
    var k := n - DaysBeforeYear(y);
    var m := MonthOf(y, k, 1);
    Date(y, m, k - DaysBeforeMonth(y, m))
  }

  /** `fromordinal` undoes `toordinal`. */
  lemma FromOrdinalOfOrdinal(d: Date)
    requires ValidDate(d)
    ensures 1 <= Ordinal(d) <= MaxOrdinal && FromOrdinal(Ordinal(d)) == d
  {
    OrdinalBounds(d);
    OrdinalInjective(FromOrdinal(Ordinal(d)), d);
  }

  /** `weekday()` goes up by one from each day to the next, wrapping from Sunday (6) to Monday (0). */
  lemma WeekdayStep(today: Date, tomorrow: Date)
    requires ValidDate(today) && ValidDate(tomorrow) && Ordinal(tomorrow) == Ordinal(today) + 1
    ensures Weekday(tomorrow) == (Weekday(today) + 1) % 7
  {
    ModSevenStep(Ordinal(today) + 6);
  }

  lemma ModSevenStep(x: int)
    ensures (x + 1) % 7 == (x % 7 + 1) % 7
  {
    var q, r := x / 7, x % 7;
    assert x + 1 == 7 * q + (r + 1);
    if r < 6 {
      assert (x + 1) % 7 == r + 1;
    } else {
      assert x + 1 == 7 * (q + 1);
    }
  }

  /** 0001-01-01 and 2024-01-01 were Mondays, so weekday 0 is Monday. */
  lemma MondayAnchors()
    ensures Weekday(Date(1, 1, 1)) == 0 && Weekday(Date(2024, 1, 1)) == 0
  {
  }
}
