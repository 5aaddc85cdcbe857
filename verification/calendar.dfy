/** Naive proleptic Gregorian calendar and clock arithmetic: the calendar
    semantics that `date-fns` computes on local dates when no daylight-saving
    transition intervenes. Days are numbered from 0001-01-01 (day 0);
    years use astronomical numbering (year 0 is 1 BC). */
module Calendar {

  datatype Date = Date(year: int, month: int, day: int) {
    predicate Valid() {
      1 <= month <= 12 && 1 <= day <= DaysInMonth(year, month)
    }
  }

  datatype Time = Time(hour: int, minute: int, second: int) {
    predicate Valid() {
      0 <= hour < 24 && 0 <= minute < 60 && 0 <= second < 60
    }
  }

  /** A JavaScript `Date` read on the local clock, to the second. */
  datatype DateTime = DateTime(date: Date, time: Time) {
    predicate Valid() {
      date.Valid() && time.Valid()
    }
  }


  /** Leap every 4 years, except every 100, except every 400. */
  predicate IsLeapYear(y: int) {
    y % 4 == 0 && (y % 100 != 0 || y % 400 == 0)
  }

  function DaysInYear(y: int): int {
    if IsLeapYear(y) then 366 else 365
  }

  function DaysInMonth(y: int, m: int): int
    requires 1 <= m <= 12
  {
    if m == 2 then (if IsLeapYear(y) then 29 else 28)
    else if m == 4 || m == 6 || m == 9 || m == 11 then 30
    else 31
  }

  /** Days of year `y` before the first of month `m`. */
  function DaysBeforeMonth(y: int, m: int): int
    requires 1 <= m <= 12
  {
    var leap := if IsLeapYear(y) && m > 2 then 1 else 0;
    var before :=
      if m == 1 then 0 else if m == 2 then 31 else if m == 3 then 59
      else if m == 4 then 90 else if m == 5 then 120 else if m == 6 then 151
      else if m == 7 then 181 else if m == 8 then 212 else if m == 9 then 243
      else if m == 10 then 273 else if m == 11 then 304 else 334;
    before + leap
  }

  /** Day number of January 1st of year `y`. */
  function DaysBeforeYear(y: int): int {
    var k := y - 1;
    365 * k + k / 4 - k / 100 + k / 400
  }

  function DayNumber(d: Date): int
    requires d.Valid()
  {
    DaysBeforeYear(d.year) + DaysBeforeMonth(d.year, d.month) + d.day - 1
  }

  /** Consecutive years are one year length apart. */
  lemma YearStep(y: int)
    ensures DaysBeforeYear(y + 1) == DaysBeforeYear(y) + DaysInYear(y)
  {
    StepBy4(y);
    StepBy100(y);
    StepBy400(y);
    assert DaysBeforeYear(y + 1) - DaysBeforeYear(y)
      == 365 + (y / 4 - (y - 1) / 4) - (y / 100 - (y - 1) / 100) + (y / 400 - (y - 1) / 400);
    Multiples(y);
  }

  /** `y / 4` steps up by one exactly at the multiples of 4; likewise for
      100 and 400. */
  lemma StepBy4(y: int)
    ensures y / 4 - (y - 1) / 4 == if y % 4 == 0 then 1 else 0
  {
  }

  lemma StepBy100(y: int)
    ensures y / 100 - (y - 1) / 100 == if y % 100 == 0 then 1 else 0
  {
  }

  lemma StepBy400(y: int)
    ensures y / 400 - (y - 1) / 400 == if y % 400 == 0 then 1 else 0
  {
  }

  /** Multiples of 400 are multiples of 100, which are multiples of 4. */
  lemma Multiples(y: int)
    ensures y % 100 == 0 ==> y % 4 == 0
    ensures y % 400 == 0 ==> y % 100 == 0
  {
    if y % 100 == 0 {
      assert y == 4 * (25 * (y / 100));
    }
    if y % 400 == 0 {
      assert y == 100 * (4 * (y / 400));
    }
  }

  /** DaysBeforeYear grows by 365.2425 days a year, give or take two days. */
  lemma YearBounds(y: int)
    ensures 146097 * (y - 1) - 699 <= 400 * DaysBeforeYear(y) <= 146097 * (y - 1) + 396
  {
  }

  lemma {:induction false} YearMonotone(a: int, b: int)
    requires a <= b
    ensures DaysBeforeYear(a) <= DaysBeforeYear(b)
  {
    if a < b {
      YearStep(a);
      YearBounds(a + 1);
      YearBounds(b);
    }
  }

  /** The Gregorian calendar repeats every 400 years, 146097 days. */
  lemma YearCycle(y: int)
    ensures DaysBeforeYear(y + 400) == DaysBeforeYear(y) + 146097
  {
    var k := y - 1;
    assert (k + 400) / 4 == k / 4 + 100;
    assert (k + 400) / 100 == k / 100 + 4;
    assert (k + 400) / 400 == k / 400 + 1;
  }

  /** Day `n` lies in year `y` exactly when day `n + 146097` lies in year
      `y + 400`. */
  lemma ShiftYear(y: int, n: int)
    requires DaysBeforeYear(y) <= n < DaysBeforeYear(y + 1)
    ensures DaysBeforeYear(y + 400) <= n + 146097 < DaysBeforeYear(y + 401)
    ensures DaysBeforeYear(y - 400) <= n - 146097 < DaysBeforeYear(y - 399)
  {
    YearCycle(y);
    YearCycle(y + 1);
    YearCycle(y - 400);
    YearCycle(y - 399);
  }

  /** The year of day `n` of the first 400-year cycle. */
  function YearInCycle(n: int): (y: int)
    requires 0 <= n < 146097
    ensures DaysBeforeYear(y) <= n < DaysBeforeYear(y + 1)
  {
    var k := n / 366;
    YearBounds(k + 1);
    YearBounds(k + 2);
    YearBounds(k + 3);
    YearBounds(k + 4);
    if DaysBeforeYear(k + 3) <= n then k + 3
    else if DaysBeforeYear(k + 2) <= n then k + 2
    else k + 1
  }

  /** The year whose days contain day number `n`. */
  function YearOf(n: int): (y: int)
    ensures DaysBeforeYear(y) <= n < DaysBeforeYear(y + 1)
    decreases if n < 0 then 146097 - n else n
  {
    if n < 0 then
      var y := YearOf(n + 146097);
      ShiftYear(y, n + 146097);
      y - 400
    else if n >= 146097 then
      var y := YearOf(n - 146097);
      ShiftYear(y, n - 146097);
      y + 400
    else YearInCycle(n)
  }

  /** At most one year contains a given day number. */
  lemma YearUnique(n: int, y1: int, y2: int)
    requires DaysBeforeYear(y1) <= n < DaysBeforeYear(y1 + 1)
    requires DaysBeforeYear(y2) <= n < DaysBeforeYear(y2 + 1)
    ensures y1 == y2
  {
    if y1 < y2 {
      YearMonotone(y1 + 1, y2);
    } else if y2 < y1 {
      YearMonotone(y2 + 1, y1);
    }
  }

  /** The month holding day `r` (0-based) of year `y`, searched from month
      `m` on. */
  function MonthFrom(y: int, r: int, m: int): (res: int)
    requires 1 <= m <= 12 && DaysBeforeMonth(y, m) <= r < DaysInYear(y)
    ensures m <= res <= 12
    ensures DaysBeforeMonth(y, res) <= r < DaysBeforeMonth(y, res) + DaysInMonth(y, res)
    decreases 12 - m
  {
    if m == 12 || r < DaysBeforeMonth(y, m) + DaysInMonth(y, m) then m
    else MonthFrom(y, r, m + 1)
  }

  /** The months of a year tile it: a day of the year lies in one month only. */
  lemma {:induction false} MonthUnique(y: int, r: int, m: int, k: int)
    requires 1 <= m <= k <= 12 && DaysBeforeMonth(y, m) <= r < DaysInYear(y)
    requires DaysBeforeMonth(y, k) <= r < DaysBeforeMonth(y, k) + DaysInMonth(y, k)
    ensures MonthFrom(y, r, m) == k
    decreases 12 - m
  {
    if m < k {
      MonthStep(y, m);
      MonthMonotone(y, m + 1, k);
      MonthUnique(y, r, m + 1, k);
    }
  }

  /** Each month starts where the one before it ends. */
  lemma MonthStep(y: int, m: int)
    requires 1 <= m < 12
    ensures DaysBeforeMonth(y, m + 1) == DaysBeforeMonth(y, m) + DaysInMonth(y, m)
  {
  }

  lemma {:induction false} MonthMonotone(y: int, a: int, b: int)
    requires 1 <= a <= b <= 12
    ensures DaysBeforeMonth(y, a) <= DaysBeforeMonth(y, b)
    decreases b - a
  {
    if a < b {
      MonthStep(y, a);
      MonthMonotone(y, a + 1, b);
    }
  }

  /** The calendar date of day number `n`, found by counting: the year by
      YearOf, the month by MonthFrom, then the day within the month. It
      inverts DayNumber (DateOfDayNumber). */
  function DateOf(n: int): (d: Date)
    ensures d.Valid() && DayNumber(d) == n
  {
    var y := YearOf(n);
    YearStep(y);
    var r := n - DaysBeforeYear(y);
    var m := MonthFrom(y, r, 1);
    Date(y, m, r - DaysBeforeMonth(y, m) + 1)
  }

  /** Two valid dates with the same day number are the same date. */
  lemma DayNumberInjective(d: Date, e: Date)
    requires d.Valid() && e.Valid() && DayNumber(d) == DayNumber(e)
    ensures d == e
  {
    var n := DayNumber(d);
    DayNumberInYear(d);
    DayNumberInYear(e);
    YearUnique(n, d.year, e.year);
    var r := n - DaysBeforeYear(d.year);
    YearStep(d.year);
    MonthUnique(d.year, r, 1, d.month);
    MonthUnique(d.year, r, 1, e.month);
  }

  /** Every valid date is the date of its own day number, so DayNumber is
      injective and DateOf is onto the valid dates. */
  lemma DateOfDayNumber(d: Date)
    requires d.Valid()
    ensures DateOf(DayNumber(d)) == d
  {
    DayNumberInjective(DateOf(DayNumber(d)), d);
  }

  /** A date's day number lies within the days of its year. */
  lemma DayNumberInYear(d: Date)
    requires d.Valid()
    ensures DaysBeforeYear(d.year) <= DayNumber(d) < DaysBeforeYear(d.year + 1)
  {
    YearStep(d.year);
  }

  /** Day numbers between the first day of year `lo` and the last day of
      year `hi` belong to dates of years `lo` to `hi`. */
  lemma YearInRange(d: Date, lo: int, hi: int)
    requires d.Valid()
    requires DaysBeforeYear(lo) <= DayNumber(d) < DaysBeforeYear(hi + 1)
    ensures lo <= d.year <= hi
  {
    DayNumberInYear(d);
    if d.year > hi {
      YearMonotone(hi + 1, d.year);
    } else if d.year < lo {
      YearMonotone(d.year + 1, lo);
    }
  }

  /** Seconds since midnight of a clock time. */
  function SecondsOfDay(t: Time): (s: int)
    requires t.Valid()
    ensures 0 <= s < 86400
  {
    t.hour * 3600 + t.minute * 60 + t.second
  }

  /** The clock time `s` seconds after midnight: the inverse of SecondsOfDay. */
  function TimeOf(s: int): (t: Time)
    requires 0 <= s < 86400
    ensures t.Valid() && SecondsOfDay(t) == s
  {
    Time(s / 3600, (s % 3600) / 60, s % 60)
  }

  lemma TimeOfSecondsOfDay(t: Time)
    requires t.Valid()
    ensures TimeOf(SecondsOfDay(t)) == t
  {
    var s := SecondsOfDay(t);
    var rest := t.minute * 60 + t.second;
    assert 0 <= rest < 3600 && s == t.hour * 3600 + rest;
    assert s / 3600 == t.hour && s % 3600 == rest;
    assert rest / 60 == t.minute && rest % 60 == t.second;
    assert s % 60 == t.second;
  }
}
