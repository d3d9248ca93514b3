/** The part of Python's datetime module the pages use: proleptic Gregorian
    dates between 0001-01-01 and 9999-12-31, their ordinal day numbers
    (date.toordinal / date.fromordinal), the weekday with Monday as 0, date
    plus a number of days with its range check, times of day, and the
    strftime fields the pages print. */
module Calendar {
  import opened Text
  import opened Wrappers

  const MaxYear: int := 9999
  /** date(9999, 12, 31).toordinal() */
  const MaxOrdinal: int := 3652059

  datatype CivilDate = CivilDate(year: int, month: int, day: int)

  predicate IsLeap(y: int)
  {
    y % 4 == 0 && (y % 100 != 0 || y % 400 == 0)
  }

  function DaysInMonth(y: int, m: int): (n: int)
    requires 1 <= m <= 12
    ensures 28 <= n <= 31
  {
    if m == 2 then (if IsLeap(y) then 29 else 28)
    else if m == 4 || m == 6 || m == 9 || m == 11 then 30
    else 31
  }

  predicate ValidDate(d: CivilDate)
  {
    1 <= d.year <= MaxYear && 1 <= d.month <= 12 && 1 <= d.day <= DaysInMonth(d.year, d.month)
  }

  /** A value of Python's datetime.date. */
  type Date = d: CivilDate | ValidDate(d) witness CivilDate(1, 1, 1)

  function YearLength(y: int): int
  {
    if IsLeap(y) then 366 else 365
  }

  /** Days in the years before `y` (datetime's _days_before_year). */
  function DaysBeforeYear(y: int): int
    requires y >= 1
  {
    var p := y - 1;
    p * 365 + p / 4 - p / 100 + p / 400
  }

  /** Days in the months of year `y` before month `m` (_days_before_month). */
  function DaysBeforeMonth(y: int, m: int): (n: int)
    requires 1 <= m <= 12
    ensures 0 <= n <= 335
  {
    (if m == 1 then 0 else if m == 2 then 31 else if m == 3 then 59
     else if m == 4 then 90 else if m == 5 then 120 else if m == 6 then 151
     else if m == 7 then 181 else if m == 8 then 212 else if m == 9 then 243
     else if m == 10 then 273 else if m == 11 then 304 else 334)
    + (if m > 2 && IsLeap(y) then 1 else 0)
  }

  /** date.toordinal(): 0001-01-01 is day 1. */
  function ToOrdinal(d: Date): int
  {
    DaysBeforeYear(d.year) + DaysBeforeMonth(d.year, d.month) + d.day
  }

  /** date.weekday(): Monday is 0 and Sunday is 6. */
  function Weekday(d: Date): (w: int)
    ensures 0 <= w < 7
  {
    (ToOrdinal(d) + 6) % 7
  }

  // ---- the ordinal day number is a bijection onto 1..MaxOrdinal ----

  lemma DivStep(y: int, k: int)
    requires y >= 1 && (k == 4 || k == 100 || k == 400)
    ensures y / k - (y - 1) / k == if y % k == 0 then 1 else 0
  {
    if k == 4 {
      assert y / 4 - (y - 1) / 4 == if y % 4 == 0 then 1 else 0;
    } else if k == 100 {
      assert y / 100 - (y - 1) / 100 == if y % 100 == 0 then 1 else 0;
    } else {
      assert y / 400 - (y - 1) / 400 == if y % 400 == 0 then 1 else 0;
    }
  }

  lemma {:induction false} YearStep(y: int)
    requires y >= 1
    ensures DaysBeforeYear(y + 1) == DaysBeforeYear(y) + YearLength(y)
  {
    DivStep(y, 4);
    DivStep(y, 100);
    DivStep(y, 400);
    DivisibleChain(y);
    assert DaysBeforeYear(y + 1) == y * 365 + y / 4 - y / 100 + y / 400;
    assert DaysBeforeYear(y) == (y - 1) * 365 + (y - 1) / 4 - (y - 1) / 100 + (y - 1) / 400;
  }

  /** A multiple of 400 is one of 100, and a multiple of 100 one of 4. */
  lemma DivisibleChain(y: int)
    ensures y % 400 == 0 ==> y % 100 == 0
    ensures y % 100 == 0 ==> y % 4 == 0
  {
    if y % 400 == 0 {
      Multiple400(y / 400);
      assert y == 400 * (y / 400);
    }
    if y % 100 == 0 {
      Multiple100(y / 100);
      assert y == 100 * (y / 100);
    }
  }

  lemma Multiple400(q: int)
    ensures (400 * q) % 100 == 0
  {
    assert 400 * q == 100 * (4 * q);
  }

  lemma Multiple100(q: int)
    ensures (100 * q) % 4 == 0
  {
    assert 100 * q == 4 * (25 * q);
  }

  lemma {:induction false} DaysBeforeYearGrows(a: int, b: int)
    requires 1 <= a <= b
    ensures DaysBeforeYear(a) + 365 * (b - a) <= DaysBeforeYear(b)
    decreases b - a
  {
    if a < b {
      DaysBeforeYearGrows(a, b - 1);
      YearStep(b - 1);
    }
  }

  lemma MonthStep(y: int, m: int)
    requires 1 <= m <= 12
    ensures m < 12 ==> DaysBeforeMonth(y, m + 1) == DaysBeforeMonth(y, m) + DaysInMonth(y, m)
    ensures m == 12 ==> DaysBeforeMonth(y, m) + DaysInMonth(y, m) == YearLength(y)
  {
  }

  lemma {:induction false} MonthsGrow(y: int, a: int, b: int)
    requires 1 <= a < b <= 12
    ensures DaysBeforeMonth(y, a) + DaysInMonth(y, a) <= DaysBeforeMonth(y, b)
    decreases b - a
  {
    MonthStep(y, a);
    if a + 1 < b {
      MonthsGrow(y, a + 1, b);
    }
  }

  lemma MonthEnd(y: int, m: int)
    requires 1 <= m <= 12
    ensures DaysBeforeMonth(y, m) + DaysInMonth(y, m) <= YearLength(y)
  {
    MonthStep(y, 12);
    if m < 12 {
      MonthsGrow(y, m, 12);
    }
  }

  /** Python compares dates field by field: year, then month, then day. */
  predicate Before(a: CivilDate, b: CivilDate)
  {
    a.year < b.year ||
    (a.year == b.year && (a.month < b.month || (a.month == b.month && a.day < b.day)))
  }

  /** The ordinal number grows with the calendar order. */
  lemma OrdinalMonotone(a: Date, b: Date)
    requires Before(a, b)
    ensures ToOrdinal(a) < ToOrdinal(b)
  {
    if a.year < b.year {
      OrdinalWithinYear(a);
      DaysBeforeYearGrows(a.year + 1, b.year);
    } else if a.month < b.month {
      MonthsGrow(a.year, a.month, b.month);
    }
  }

  /** A date's ordinal does not pass the last day of its year. */
  lemma OrdinalWithinYear(d: Date)
    ensures ToOrdinal(d) <= DaysBeforeYear(d.year + 1)
  {
    MonthEnd(d.year, d.month);
    YearStep(d.year);
  }

  /** Every valid date has an ordinal in 1..MaxOrdinal. */
  lemma OrdinalRange(d: Date)
    ensures 1 <= ToOrdinal(d) <= MaxOrdinal
  {
    MonthEnd(d.year, d.month);
    YearStep(d.year);
    DaysBeforeYearGrows(1, d.year);
    DaysBeforeYearGrows(d.year + 1, MaxYear + 1);
  }

  lemma OrdinalInjective(a: Date, b: Date)
    requires ToOrdinal(a) == ToOrdinal(b)
    ensures a == b
  {
    if Before(a, b) {
      OrdinalMonotone(a, b);
    } else if Before(b, a) {
      OrdinalMonotone(b, a);
    }
  }

  /** Dates compare as their ordinals do. */
  lemma BeforeIffOrdinal(a: Date, b: Date)
    ensures Before(a, b) <==> ToOrdinal(a) < ToOrdinal(b)
  {
    if Before(a, b) {
      OrdinalMonotone(a, b);
    } else if Before(b, a) {
      OrdinalMonotone(b, a);
    } else {
      assert a == b;
    }
  }

  /** The year holding day `n`, searching upwards from `y`. */
  function FindYear(n: int, y: int): (r: int)
    requires 1 <= y <= MaxYear && DaysBeforeYear(y) < n <= MaxOrdinal
    ensures y <= r <= MaxYear && DaysBeforeYear(r) < n <= DaysBeforeYear(r + 1)
    decreases n - DaysBeforeYear(y)
  {
    YearStep(y);
    if n <= DaysBeforeYear(y + 1) then y
    else
      FindYear(n, y + 1)
  }

  /** The month holding day `r` of year `y`, searching upwards from `m`. */
  function FindMonth(y: int, r: int, m: int): (res: int)
    requires 1 <= m <= 12 && DaysBeforeMonth(y, m) < r <= YearLength(y)
    ensures m <= res <= 12
    ensures DaysBeforeMonth(y, res) < r <= DaysBeforeMonth(y, res) + DaysInMonth(y, res)
    decreases 12 - m
  {
    MonthStep(y, m);
    if r <= DaysBeforeMonth(y, m) + DaysInMonth(y, m) then m
    else FindMonth(y, r, m + 1)
  }

  /** date.fromordinal(n): the inverse of ToOrdinal. */
  function FromOrdinal(n: int): (d: Date)
    requires 1 <= n <= MaxOrdinal
    ensures ToOrdinal(d) == n
  {
    var y := FindYear(n, 1);
    YearStep(y);
    var m := FindMonth(y, n - DaysBeforeYear(y), 1);
    CivilDate(y, m, n - DaysBeforeYear(y) - DaysBeforeMonth(y, m))
  }

  lemma FromToOrdinal(d: Date)
    ensures 1 <= ToOrdinal(d) <= MaxOrdinal && FromOrdinal(ToOrdinal(d)) == d
  {
    OrdinalRange(d);
    OrdinalInjective(FromOrdinal(ToOrdinal(d)), d);
  }

  /** d + timedelta(days=k); None where Python raises OverflowError because
      the result falls outside 0001-01-01..9999-12-31. */
  function AddDays(d: Date, k: int): (r: Option<Date>)
    ensures r.Some? <==> 1 <= ToOrdinal(d) + k <= MaxOrdinal
    ensures r.Some? ==> ToOrdinal(r.value) == ToOrdinal(d) + k
  {
    var n := ToOrdinal(d) + k;
    if 1 <= n <= MaxOrdinal then Some(FromOrdinal(n)) else None
  }

  // ---- times of day and date-times ----

  datatype ClockTime = ClockTime(hour: int, minute: int, second: int)

  predicate ValidTime(t: ClockTime)
  {
    0 <= t.hour < 24 && 0 <= t.minute < 60 && 0 <= t.second < 60
  }

  /** A value of Python's datetime.time (to the second). */
  type TimeOfDay = t: ClockTime | ValidTime(t) witness ClockTime(0, 0, 0)

  function SecondsOfDay(t: TimeOfDay): (s: int)
    ensures 0 <= s < 86400
  {
    t.hour * 3600 + t.minute * 60 + t.second
  }

  /** Python compares times field by field. */
  predicate TimeBefore(a: ClockTime, b: ClockTime)
  {
    a.hour < b.hour ||
    (a.hour == b.hour && (a.minute < b.minute || (a.minute == b.minute && a.second < b.second)))
  }

  lemma TimeBeforeIffSeconds(a: TimeOfDay, b: TimeOfDay)
    ensures TimeBefore(a, b) <==> SecondsOfDay(a) < SecondsOfDay(b)
  {
  }

  /** A naive local datetime.datetime. */
  datatype DateTime = DateTime(date: Date, time: TimeOfDay)

  /** Seconds since the start of day 0 of the ordinal calendar; differences
      of these are timedelta.total_seconds(). */
  function EpochSeconds(dt: DateTime): int
  {
    ToOrdinal(dt.date) * 86400 + SecondsOfDay(dt.time)
  }

  // ---- strftime ----

  /** strftime("%Y-%m-%d"). */
  function DayKey(d: Date): (r: string)
    ensures |r| == 10
  {
    PadNat(d.year, 4) + "-" + PadNat(d.month, 2) + "-" + PadNat(d.day, 2)
  }

  /** strftime("%H:%M"). */
  function HourMinute(t: TimeOfDay): (r: string)
    ensures |r| == 5
  {
    PadNat(t.hour, 2) + ":" + PadNat(t.minute, 2)
  }

  /** strftime("%Y-%m-%d %H:%M:%S"): the text of a `fecha_local` column. */
  function FormatDateTime(dt: DateTime): (r: string)
    ensures |r| == 19
  {
    DayKey(dt.date) + " " + HourMinute(dt.time) + ":" + PadNat(dt.time.second, 2)
  }

  /** strftime("%d/%m"), or "%d/%m/%Y" when the year is wanted. */
  function DayMonth(d: Date, withYear: bool): string
  {
    PadNat(d.day, 2) + "/" + PadNat(d.month, 2) + (if withYear then "/" + PadNat(d.year, 4) else "")
  }

  /** The day key of a date-time's text is its date's key. */
  lemma DayKeyPrefix(dt: DateTime)
    ensures DayKey(dt.date) <= FormatDateTime(dt)
  {
  }

  /** Distinct dates have distinct "%Y-%m-%d" keys. */
  lemma DayKeyInjective(a: Date, b: Date)
    requires DayKey(a) == DayKey(b)
    ensures a == b
  {
    var ka, kb := DayKey(a), DayKey(b);
    assert ka[..4] == PadNat(a.year, 4) && kb[..4] == PadNat(b.year, 4);
    assert ka[5..7] == PadNat(a.month, 2) && kb[5..7] == PadNat(b.month, 2);
    assert ka[8..] == PadNat(a.day, 2) && kb[8..] == PadNat(b.day, 2);
    assert Pow10(4) == 10000 && Pow10(2) == 100;
    PadNatInjective(a.year, b.year, 4);
    PadNatInjective(a.month, b.month, 2);
    PadNatInjective(a.day, b.day, 2);
  }
}
