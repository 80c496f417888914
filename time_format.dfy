/**
 * Instants, the stored timestamp text and the duration helpers.
 *
 * An instant is a whole number of seconds since 0001-01-01 00:00:00 (the
 * earliest naive `datetime`). Rows store `to_str(now_utc())`, the fixed-width
 * text `%Y-%m-%d %H:%M:%S`; `parse_str` reads it back.
 */
module TimeFormat {
  import opened Wrappers
  import opened Calendar

  type Instant = int

  const SecondsPerDay := 86400
  /** `LOCAL_OFFSET`: local time is UTC + 7 hours. */
  const LocalOffset := 7 * 3600
  /** First instant past 9999-12-31 23:59:59. */
  const MaxInstant := MaxOrdinal * SecondsPerDay

  /** An instant a naive `datetime` can hold. */
  predicate Representable(t: Instant) {
    0 <= t < MaxInstant
  }

  datatype DateTime = DateTime(date: Date, hour: int, minute: int, second: int)

  predicate ValidDateTime(dt: DateTime) {
    ValidDate(dt.date) && 0 <= dt.hour < 24 && 0 <= dt.minute < 60 && 0 <= dt.second < 60
  }

  function InstantOf(dt: DateTime): Instant
    requires ValidDateTime(dt)
  {
    (Ordinal(dt.date) - 1) * SecondsPerDay + dt.hour * 3600 + dt.minute * 60 + dt.second
  }

  /** The calendar fields of an instant. */
  function DateTimeOf(t: Instant): (dt: DateTime)
    requires Representable(t)
    ensures ValidDateTime(dt) && InstantOf(dt) == t
  {
    var days, sod := t / SecondsPerDay, t % SecondsPerDay;
    DayDecomposition(t);
    ClockDecomposition(sod);
    DateTime(FromOrdinal(days + 1), sod / 3600, sod % 3600 / 60, sod % 60)
  }

  lemma DayDecomposition(t: Instant)
    requires Representable(t)
    ensures 0 <= t / SecondsPerDay < MaxOrdinal && 0 <= t % SecondsPerDay < SecondsPerDay
    ensures t == (t / SecondsPerDay) * SecondsPerDay + t % SecondsPerDay
  {
  }

  lemma ClockDecomposition(sod: int)
    requires 0 <= sod < SecondsPerDay
    ensures 0 <= sod / 3600 < 24 && 0 <= sod % 3600 / 60 < 60 && 0 <= sod % 60 < 60
    ensures sod == (sod / 3600) * 3600 + (sod % 3600 / 60) * 60 + sod % 60
  {
  }

  lemma InstantOfBounds(dt: DateTime)
    requires ValidDateTime(dt)
    ensures Representable(InstantOf(dt))
    ensures InstantOf(dt) / SecondsPerDay + 1 == Ordinal(dt.date)
    ensures InstantOf(dt) % SecondsPerDay == dt.hour * 3600 + dt.minute * 60 + dt.second
  {
    OrdinalBounds(dt.date);
    var sod := dt.hour * 3600 + dt.minute * 60 + dt.second;
    var n := Ordinal(dt.date) - 1;
    assert 0 <= sod < SecondsPerDay;
    DivModUnique(InstantOf(dt), n, sod);
  }

  lemma DivModUnique(t: int, q: int, r: int)
    requires 0 <= r < SecondsPerDay && t == q * SecondsPerDay + r
    ensures t / SecondsPerDay == q && t % SecondsPerDay == r
  {
  }

  /** The fields of an instant determine it, and only one set of fields yields it. */
  lemma DateTimeOfInstantOf(dt: DateTime)
    requires ValidDateTime(dt)
    ensures Representable(InstantOf(dt)) && DateTimeOf(InstantOf(dt)) == dt
  {
    InstantOfBounds(dt);
    DateTimeOfFields(InstantOf(dt), dt);
  }

  lemma DateTimeOfFields(t: Instant, dt: DateTime)
    requires Representable(t) && ValidDateTime(dt)
    requires t / SecondsPerDay + 1 == Ordinal(dt.date)
    requires t % SecondsPerDay == dt.hour * 3600 + dt.minute * 60 + dt.second
    ensures DateTimeOf(t) == dt
  {
    FromOrdinalOfOrdinal(dt.date);
    ClockOfSeconds(t % SecondsPerDay, dt.hour, dt.minute, dt.second);
    DateTimeOfShape(t);
  }

  lemma DateTimeOfShape(t: Instant)
    requires Representable(t)
    ensures var sod := t % SecondsPerDay;
      DateTimeOf(t) == DateTime(FromOrdinal(t / SecondsPerDay + 1), sod / 3600, sod % 3600 / 60, sod % 60)
  {
  }

  lemma ClockOfSeconds(sod: int, h: int, m: int, s: int)
    requires 0 <= h < 24 && 0 <= m < 60 && 0 <= s < 60
    requires sod == h * 3600 + m * 60 + s
    ensures sod / 3600 == h && sod % 3600 / 60 == m && sod % 60 == s
  {
  }

  // ---------------------------------------------------------------------
  // Text form: `to_str` and `parse_str`
  // ---------------------------------------------------------------------

  predicate IsDigit(c: char) {
    '0' <= c <= '9'
  }

  function Digit(n: int): (c: char)
    requires 0 <= n <= 9
    ensures IsDigit(c)
  {
    (48 + n) as char
  }

  function DigitValue(c: char): int
    requires IsDigit(c)
  {
    c as int - 48
  }

  /** Two-digit zero-padded decimal. */
  function Pad2(n: int): (s: string)
    requires 0 <= n < 100
    ensures |s| == 2
  {
    [Digit(n / 10), Digit(n % 10)]
  }

  /** Four-digit zero-padded decimal (`%Y`). */
  function Pad4(n: int): (s: string)
    requires 0 <= n < 10000
    ensures |s| == 4
  {
    Pad2(n / 100) + Pad2(n % 100)
  }

  /** A separator followed by a two-digit field. */
  function Field(sep: char, n: int): (s: string)
    requires 0 <= n < 100
    ensures |s| == 3
  {
    [sep] + Pad2(n)
  }

  function Format(dt: DateTime): (s: string)
    requires ValidDateTime(dt)
    ensures |s| == 19
  {
    Pad4(dt.date.year)
      + (Field('-', dt.date.month)
      + (Field('-', dt.date.day)
      + (Field(' ', dt.hour)
      + (Field(':', dt.minute)
      + Field(':', dt.second)))))
  }

  /** `to_str`: `dt.strftime("%Y-%m-%d %H:%M:%S")`. */
  function ToStr(t: Instant): (s: string)
    requires Representable(t)
    ensures |s| == 19
  {
    Format(DateTimeOf(t))
  }

  predicate AllDigits(s: string) {
    forall i :: 0 <= i < |s| ==> IsDigit(s[i])
  }

  /** The value of a string of decimal digits. */
  function DigitsValue(s: string): (v: int)
    requires AllDigits(s)
    ensures v >= 0
  {
    if s == [] then 0 else DigitsValue(s[..|s| - 1]) * 10 + DigitValue(s[|s| - 1])
  }

  /** The positions of `YYYY-mm-dd HH:MM:SS` that hold digits. */
  predicate DigitPositions(s: string)
    requires |s| == 19
  {
    AllDigits(s[0..4]) && AllDigits(s[5..7]) && AllDigits(s[8..10])
      && AllDigits(s[11..13]) && AllDigits(s[14..16]) && AllDigits(s[17..19])
  }

  /**
   * `parse_str` on the canonical format: `None` for empty or malformed text
   * and for fields out of range (where `strptime` or `datetime` raise and the
   * bare `except` returns `None`).
   */
  function ParseStr(s: string): (r: Option<Instant>)
    ensures r.Some? ==> Representable(r.value)
  {
    if |s| != 19 then None
    else if !(s[4] == '-' && s[7] == '-' && s[10] == ' ' && s[13] == ':' && s[16] == ':') then None
    else if !DigitPositions(s) then None
    else
      var dt := DateTime(Date(DigitsValue(s[0..4]), DigitsValue(s[5..7]), DigitsValue(s[8..10])),
                         DigitsValue(s[11..13]), DigitsValue(s[14..16]), DigitsValue(s[17..19]));
      if ValidDateTime(dt) then
        InstantOfBounds(dt);
        Some(InstantOf(dt))
      else None
  }

  lemma Pad2Value(n: int)
    requires 0 <= n < 100
    ensures AllDigits(Pad2(n)) && DigitsValue(Pad2(n)) == n
  {
    var s := Pad2(n);
    assert s[..1] == [Digit(n / 10)];
    assert s[..1][..0] == [];
    assert DigitsValue(s[..1]) == DigitValue(s[0]);
    assert DigitsValue(s) == DigitValue(s[0]) * 10 + DigitValue(s[1]);
  }

  lemma Pad4Value(n: int)
    requires 0 <= n < 10000
    ensures AllDigits(Pad4(n)) && DigitsValue(Pad4(n)) == n
  {
    var s := Pad4(n);
    var hi, lo := Pad2(n / 100), Pad2(n % 100);
    Pad2Value(n / 100);
    assert s[..3] == hi + [lo[0]];
    assert s[..3][..2] == hi;
    assert DigitsValue(s[..3]) == (n / 100) * 10 + DigitValue(lo[0]);
  }

  /** A two-digit string is the padding of its value. */
  lemma Pad2OfValue(s: string)
    requires |s| == 2 && AllDigits(s)
    ensures DigitsValue(s) < 100 && Pad2(DigitsValue(s)) == s
  {
    assert s[..1][..0] == [];
    assert DigitsValue(s[..1]) == DigitValue(s[0]);
    var v := DigitsValue(s);
    assert v == DigitValue(s[0]) * 10 + DigitValue(s[1]);
    assert v / 10 == DigitValue(s[0]) && v % 10 == DigitValue(s[1]);
    assert Digit(DigitValue(s[0])) == s[0] && Digit(DigitValue(s[1])) == s[1];
  }

  lemma Pad4OfValue(s: string)
    requires |s| == 4 && AllDigits(s)
    ensures DigitsValue(s) < 10000 && Pad4(DigitsValue(s)) == s
  {
    var hi, lo := s[..2], s[2..];
    Pad2OfValue(hi);
    Pad2OfValue(lo);
    FourDigitsValue(s);
    HundredsOf(DigitsValue(hi), DigitsValue(lo));
    assert s == hi + lo;
  }

  /** The value of four digits in terms of its two halves. */
  lemma FourDigitsValue(s: string)
    requires |s| == 4 && AllDigits(s)
    ensures DigitsValue(s) == DigitsValue(s[..2]) * 100 + DigitsValue(s[2..])
  {
    var hi, lo := s[..2], s[2..];
    assert s[..3] == hi + [s[2]];
    assert s[..3][..2] == hi;
    assert lo[..1][..0] == [];
    assert DigitsValue(lo[..1]) == DigitValue(s[2]);
    assert DigitsValue(lo) == DigitValue(s[2]) * 10 + DigitValue(s[3]);
    assert DigitsValue(s[..3]) == DigitsValue(hi) * 10 + DigitValue(s[2]);
  }

  lemma HundredsOf(a: int, b: int)
    requires 0 <= a < 100 && 0 <= b < 100
    ensures (a * 100 + b) / 100 == a && (a * 100 + b) % 100 == b && a * 100 + b < 10000
  {
  }

  lemma FormatSlices(dt: DateTime)
    requires ValidDateTime(dt)
    ensures var s := Format(dt);
      s[0..4] == Pad4(dt.date.year) && s[5..7] == Pad2(dt.date.month) && s[8..10] == Pad2(dt.date.day)
      && s[11..13] == Pad2(dt.hour) && s[14..16] == Pad2(dt.minute) && s[17..19] == Pad2(dt.second)
      && s[4] == '-' && s[7] == '-' && s[10] == ' ' && s[13] == ':' && s[16] == ':'
  {
  }

  /** `parse_str(to_str(t))` gives `t` back. */
  lemma ParseToStr(t: Instant)
    requires Representable(t)
    ensures ParseStr(ToStr(t)) == Some(t)
  {
    var dt := DateTimeOf(t);
    var s := ToStr(t);
    FormatSlices(dt);
    Pad4Value(dt.date.year);
    Pad2Value(dt.date.month);
    Pad2Value(dt.date.day);
    Pad2Value(dt.hour);
    Pad2Value(dt.minute);
    Pad2Value(dt.second);
  }

  /** `parse_str` accepts only the canonical text of the instant it returns. */
  lemma ToStrParse(s: string)
    requires ParseStr(s).Some?
    ensures ToStr(ParseStr(s).value) == s
  {
    var dt := DateTime(Date(DigitsValue(s[0..4]), DigitsValue(s[5..7]), DigitsValue(s[8..10])),
                       DigitsValue(s[11..13]), DigitsValue(s[14..16]), DigitsValue(s[17..19]));
    assert ParseStr(s) == Some(InstantOf(dt));
    DateTimeOfInstantOf(dt);
    Pad4OfValue(s[0..4]);
    Pad2OfValue(s[5..7]);
    Pad2OfValue(s[8..10]);
    Pad2OfValue(s[11..13]);
    Pad2OfValue(s[14..16]);
    Pad2OfValue(s[17..19]);
    FormatOfSlices(s, dt);
  }

  lemma FormatOfSlices(s: string, dt: DateTime)
    requires ValidDateTime(dt) && |s| == 19
    requires s[0..4] == Pad4(dt.date.year) && s[5..7] == Pad2(dt.date.month) && s[8..10] == Pad2(dt.date.day)
    requires s[11..13] == Pad2(dt.hour) && s[14..16] == Pad2(dt.minute) && s[17..19] == Pad2(dt.second)
    requires s[4] == '-' && s[7] == '-' && s[10] == ' ' && s[13] == ':' && s[16] == ':'
    ensures Format(dt) == s
  {
    FormatSlices(dt);
    var f := Format(dt);
    forall i | 0 <= i < 19 ensures f[i] == s[i] {
      if i < 4 { assert f[i] == f[0..4][i]; assert s[i] == s[0..4][i]; }
      else if 4 < i < 7 { assert f[i] == f[5..7][i - 5]; assert s[i] == s[5..7][i - 5]; }
      else if 7 < i < 10 { assert f[i] == f[8..10][i - 8]; assert s[i] == s[8..10][i - 8]; }
      else if 10 < i < 13 { assert f[i] == f[11..13][i - 11]; assert s[i] == s[11..13][i - 11]; }
      else if 13 < i < 16 { assert f[i] == f[14..16][i - 14]; assert s[i] == s[14..16][i - 14]; }
      else if 16 < i { assert f[i] == f[17..19][i - 17]; assert s[i] == s[17..19][i - 17]; }
    }
  }

  // ---------------------------------------------------------------------
  // The text order SQLite uses, and why it agrees with time order
  // ---------------------------------------------------------------------

  /** SQLite's comparison of TEXT values (code-point order, then length). */
  predicate LexLe(a: string, b: string)
    decreases |a|
  {
    if |a| == 0 then true
    else if |b| == 0 then false
    else if a[0] != b[0] then a[0] < b[0]
    else LexLe(a[1..], b[1..])
  }

  /** Comparing two texts split at the same length. */
  lemma {:induction false} LexConcat(a1: string, a2: string, b1: string, b2: string)
    requires |a1| == |b1|
    ensures LexLe(a1 + a2, b1 + b2) == if a1 == b1 then LexLe(a2, b2) else LexLe(a1, b1)
    decreases |a1|
  {
    if |a1| == 0 {
      assert a1 + a2 == a2 && b1 + b2 == b2;
    } else {
      assert (a1 + a2)[0] == a1[0] && (b1 + b2)[0] == b1[0];
      assert (a1 + a2)[1..] == a1[1..] + a2 && (b1 + b2)[1..] == b1[1..] + b2;
      if a1[0] == b1[0] {
        LexConcat(a1[1..], a2, b1[1..], b2);
        assert a1 == b1 <==> a1[1..] == b1[1..] by {
          if a1[1..] == b1[1..] {
            assert a1 == [a1[0]] + a1[1..] && b1 == [b1[0]] + b1[1..];
          }
        }
      }
    }
  }

  /** The order fact for one padded field: equal exactly when equal, else ordered by value. */
  predicate OrderedBy(a: string, b: string, x: int, y: int) {
    (a == b <==> x == y) && (a != b ==> (LexLe(a, b) <==> x < y))
  }

  lemma Pad2Order(x: int, y: int)
    requires 0 <= x < 100 && 0 <= y < 100
    ensures OrderedBy(Pad2(x), Pad2(y), x, y)
  {
    LexConcat([Digit(x / 10)], [Digit(x % 10)], [Digit(y / 10)], [Digit(y % 10)]);
    assert Pad2(x) == [Digit(x / 10)] + [Digit(x % 10)];
    assert Pad2(y) == [Digit(y / 10)] + [Digit(y % 10)];
  }

  lemma Pad4Order(x: int, y: int)
    requires 0 <= x < 10000 && 0 <= y < 10000
    ensures OrderedBy(Pad4(x), Pad4(y), x, y)
  {
    Pad2Order(x / 100, y / 100);
    Pad2Order(x % 100, y % 100);
    LexConcat(Pad2(x / 100), Pad2(x % 100), Pad2(y / 100), Pad2(y % 100));
  }

  lemma FieldOrder(c: char, x: int, y: int)
    requires 0 <= x < 100 && 0 <= y < 100
    ensures OrderedBy(Field(c, x), Field(c, y), x, y)
  {
    Pad2Order(x, y);
    LexConcat([c], Pad2(x), [c], Pad2(y));
  }

  /** One more field on the front of an ordered pair of texts. */
  lemma OrderedCons(a1: string, a2: string, b1: string, b2: string, x1: int, x2: int, y1: int, y2: int)
    requires |a1| == |b1| && OrderedBy(a1, b1, x1, y1)
    ensures LexLe(a1 + a2, b1 + b2) == if x1 == y1 then LexLe(a2, b2) else x1 < y1
    ensures a1 + a2 == b1 + b2 <==> x1 == y1 && a2 == b2
  {
    LexConcat(a1, a2, b1, b2);
    if a1 + a2 == b1 + b2 {
      assert a1 == (a1 + a2)[..|a1|] && b1 == (b1 + b2)[..|b1|];
      assert a2 == (a1 + a2)[|a1|..] && b2 == (b1 + b2)[|b1|..];
    }
  }

  /** Lexicographic order on the six calendar fields. */
  predicate FieldsLe(a: DateTime, b: DateTime) {
    if a.date.year != b.date.year then a.date.year < b.date.year
    else if a.date.month != b.date.month then a.date.month < b.date.month
    else if a.date.day != b.date.day then a.date.day < b.date.day
    else if a.hour != b.hour then a.hour < b.hour
    else if a.minute != b.minute then a.minute < b.minute
    else a.second <= b.second
  }

  lemma FormatOrder(a: DateTime, b: DateTime)
    requires ValidDateTime(a) && ValidDateTime(b)
    ensures LexLe(Format(a), Format(b)) == FieldsLe(a, b)
  {
    var sa := Field(':', a.second);
    var sb := Field(':', b.second);
    FieldOrder(':', a.second, b.second);
    assert LexLe(sa, sb) == (a.second <= b.second) by {
      if sa == sb {
        LexConcat(sa, [], sb, []);
        assert sa + [] == sa && sb + [] == sb;
      }
    }
    var ma, mb := Field(':', a.minute) + sa, Field(':', b.minute) + sb;
    FieldOrder(':', a.minute, b.minute);
    OrderedCons(Field(':', a.minute), sa, Field(':', b.minute), sb, a.minute, a.second, b.minute, b.second);
    var ha, hb := Field(' ', a.hour) + ma, Field(' ', b.hour) + mb;
    FieldOrder(' ', a.hour, b.hour);
    OrderedCons(Field(' ', a.hour), ma, Field(' ', b.hour), mb, a.hour, 0, b.hour, 0);
    var da, db := Field('-', a.date.day) + ha, Field('-', b.date.day) + hb;
    FieldOrder('-', a.date.day, b.date.day);
    OrderedCons(Field('-', a.date.day), ha, Field('-', b.date.day), hb, a.date.day, 0, b.date.day, 0);
    var na, nb := Field('-', a.date.month) + da, Field('-', b.date.month) + db;
    FieldOrder('-', a.date.month, b.date.month);
    OrderedCons(Field('-', a.date.month), da, Field('-', b.date.month), db, a.date.month, 0, b.date.month, 0);
    Pad4Order(a.date.year, b.date.year);
    OrderedCons(Pad4(a.date.year), na, Pad4(b.date.year), nb, a.date.year, 0, b.date.year, 0);
  }

  lemma InstantOrder(a: DateTime, b: DateTime)
    requires ValidDateTime(a) && ValidDateTime(b)
    ensures FieldsLe(a, b) <==> InstantOf(a) <= InstantOf(b)
  {
    if a.date != b.date {
      if DateLt(a.date, b.date) {
        OrdinalStrictMono(a.date, b.date);
      } else {
        assert DateLt(b.date, a.date);
        OrdinalStrictMono(b.date, a.date);
      }
    }
  }

  /**
   * `to_str` is order-preserving: the text comparisons in the SQL `WHERE`
   * clauses agree with comparisons of the instants themselves.
   */
  lemma ToStrOrder(s: Instant, t: Instant)
    requires Representable(s) && Representable(t)
    ensures LexLe(ToStr(s), ToStr(t)) <==> s <= t
  {
    FormatOrder(DateTimeOf(s), DateTimeOf(t));
    InstantOrder(DateTimeOf(s), DateTimeOf(t));
  }

  // ---------------------------------------------------------------------
  // Durations
  // ---------------------------------------------------------------------

  /**
   * `minutes_between(a, b)`: whole minutes from `a` to `b`, floored;
   * 0 when either is missing or when `b` is before `a`.
   */
  function MinutesBetween(a: Option<Instant>, b: Option<Instant>): (r: nat)
    ensures a.None? || b.None? ==> r == 0
    ensures a.Some? && b.Some? && b.value >= a.value ==>
      r * 60 <= b.value - a.value < (r + 1) * 60
    ensures a.Some? && b.Some? && b.value < a.value ==> r == 0
  {
    if a.None? || b.None? then 0
    else
      var m := (b.value - a.value) / 60;
      if m < 0 then 0 else m
  }

  /** `fmt_minutes` before rendering: hours and minutes from one hour up, plain minutes below. */
  datatype Duration = HoursMinutes(hours: nat, minutes: nat) | MinutesOnly(total: int)

  function SplitMinutes(m: int): (r: Duration)
    ensures r.HoursMinutes? <==> m >= 60
    ensures r.HoursMinutes? ==> r.hours >= 1 && r.minutes < 60 && r.hours * 60 + r.minutes == m
    ensures r.MinutesOnly? ==> r.total == m
  {
    if m >= 60 then HoursMinutes(m / 60, m % 60) else MinutesOnly(m)
  }

  function NatToString(n: nat): (s: string)
    ensures |s| >= 1 && AllDigits(s)
    decreases n
  {
    if n < 10 then [Digit(n)] else NatToString(n / 10) + [Digit(n % 10)]
  }

  /** Python's `str(n)` on an integer. */
  function IntToString(n: int): string {
    if n < 0 then "-" + NatToString(-n) else NatToString(n)
  }

  lemma {:induction false} NatToStringValue(n: nat)
    ensures DigitsValue(NatToString(n)) == n
    decreases n
  {
    if n >= 10 {
      NatToStringValue(n / 10);
      var s := NatToString(n);
      assert s[..|s| - 1] == NatToString(n / 10);
    }
  }

  /** `fmt_minutes(m)`: "{h}小时{mm}分钟" from 60 minutes up, "{m}分钟" below. */
  function FmtMinutes(m: int): (s: string)
    ensures |s| >= 3 && s[|s| - 2..] == "分钟"
    ensures m >= 60 ==>
      s == NatToString(SplitMinutes(m).hours) + "小时" + NatToString(SplitMinutes(m).minutes) + "分钟"
    ensures m < 60 ==> s == IntToString(m) + "分钟"
  {
    match SplitMinutes(m)
    case HoursMinutes(h, mm) => NatToString(h) + "小时" + NatToString(mm) + "分钟"
    case MinutesOnly(t) => IntToString(t) + "分钟"
  }

  /**
   * The numbers in the text read back as the minutes: from 60 up, the hours
   * before "小时" times 60 plus the minutes before "分钟" (fewer than 60);
   * below 60, the number before "分钟".
   */
  lemma FmtMinutesReadsBack(m: nat)
    ensures var s, d := FmtMinutes(m), SplitMinutes(m);
      if m >= 60 then
        && s == NatToString(d.hours) + "小时" + NatToString(d.minutes) + "分钟"
        && DigitsValue(NatToString(d.hours)) * 60 + DigitsValue(NatToString(d.minutes)) == m
        && DigitsValue(NatToString(d.minutes)) < 60
      else
        s == NatToString(m) + "分钟" && DigitsValue(NatToString(m)) == m
  {
    var d := SplitMinutes(m);
    if m >= 60 {
      NatToStringValue(d.hours);
      NatToStringValue(d.minutes);
    } else {
      NatToStringValue(m);
    }
  }
}
