/** The four MUMPS `$HOROLOG` conversions and the two upper-bound clamps.
    A MUMPS date counts days from 31/12/1840 (day 0); a MUMPS time counts
    seconds from midnight. */
module Conversions {
  import opened Wrappers
  import opened Numerals
  import opened Calendar
  import opened Display

  /** Day 0 of the MUMPS calendar. */
  const Epoch := Date(1840, 12, 31)
  /** Day number (from 0001-01-01) of the epoch. */
  const EpochDay := 672045
  /** 31/12/9999, the last date of the date field. */
  const MaxMumpsDate := 2980013
  /** 23:59:59, the last second of a day. */
  const MaxMumpsTime := 86399

  lemma EpochDayNumber()
    ensures DayNumber(Epoch) == EpochDay
  {
  }

  /** -1, 0 or 1 as `a` is below, equal to or above `b`. */
  function Compare(a: int, b: int): int {
    if a < b then -1 else if a > b then 1 else 0
  }

  /** `dateToMumps`: `differenceInDays(dt, epoch)` as date-fns computes it
      on a naive local clock: the calendar-day difference, moved one day
      toward zero when the last day is not full. From the epoch on this is
      the calendar difference whatever the time of day; before the epoch a
      partial day counts one day nearer zero. The epoch instant is midnight, second
      0 of its day. */
  function DateToMumps(dt: DateTime): (n: int)
    requires dt.Valid()
    ensures DayNumber(dt.date) >= EpochDay ==> n == DayNumber(dt.date) - EpochDay
    ensures DayNumber(dt.date) < EpochDay ==>
      n == DayNumber(dt.date) - EpochDay + (if SecondsOfDay(dt.time) > 0 then 1 else 0)
  {
    var seconds := SecondsOfDay(dt.time);
    // the order of dt and the epoch instant: date first, then time of day
    var sign :=
      if DayNumber(dt.date) != EpochDay then Compare(DayNumber(dt.date), EpochDay)
      else Compare(seconds, 0);
    var calendarDays := DayNumber(dt.date) - EpochDay;
    var whole := if calendarDays < 0 then -calendarDays else calendarDays;
    // dt moved `whole` days toward the epoch falls on the epoch's date
    var lastDayNotFull := if sign != 0 && Compare(seconds, 0) == -sign then 1 else 0;
    if sign < 0 then -(whole - lastDayNotFull) else whole - lastDayNotFull
  }

  /** The date `n` days after the epoch (before it when `n` is negative). */
  function DateOfMumps(n: int): (d: Date)
    ensures d.Valid() && DayNumber(d) - EpochDay == n
  {
    DateOf(EpochDay + n)
  }

  /** Counting the days to the date `n` days after the epoch gives back `n`:
      at any time of day from the epoch on, and at midnight before it. */
  lemma DateOfMumpsRoundTrip(n: int, t: Time)
    requires t.Valid()
    requires n >= 0 || SecondsOfDay(t) == 0
    ensures DateToMumps(DateTime(DateOfMumps(n), t)) == n
  {
  }

  /** A date and time on or after the epoch is counted to its own date. */
  lemma DateToMumpsRoundTrip(dt: DateTime)
    requires dt.Valid() && DayNumber(dt.date) >= EpochDay
    ensures DateOfMumps(DateToMumps(dt)) == dt.date
  {
    ShowsDate(DateToMumps(dt), dt.date);
  }

  /** `mumpsToDate`: `addDays(epoch, n)` shown as `dd/MM/yyyy`. Every day
      count of the date field shows a date of years 1840 to 9999, in text
      that reads back as that date. */
  function MumpsToDate(n: int): (text: string)
    ensures 0 <= n <= MaxMumpsDate ==>
      1840 <= DateOfMumps(n).year <= 9999 && |text| == 10 && ParseDate(text) == Some(DateOfMumps(n))
  {
    if 0 <= n <= MaxMumpsDate then
      MumpsDateYears(n);
      FormatDate(DateOfMumps(n))
    else FormatDate(DateOfMumps(n))
  }

  /** `timeToMumps`: `differenceInSeconds` from midnight of the time's own
      day, which is the time of day in seconds. */
  function TimeToMumps(dt: DateTime): (s: int)
    requires dt.Valid()
    ensures 0 <= s <= MaxMumpsTime
    ensures TimeOf(s) == dt.time
  {
    TimeOfSecondsOfDay(dt.time);
    // dt and its own midnight share the calendar day, so only the time of
    // day separates them
    SecondsOfDay(dt.time)
  }

  /** `mumpsToTime`: `addSeconds(epoch, n)` shown as `HH:mm:ss`; only the
      time of day of the sum is shown. */
  function MumpsToTime(n: int): (text: string)
    ensures |text| == 8 && ParseTime(text) == Some(TimeOf(n % 86400))
  {
    FormatTime(TimeOf(n % 86400))
  }

  /** `Number(text) > bound`, which is false for NaN. */
  predicate Exceeds(text: string, bound: int) {
    NumberOf(text).Int? && NumberOf(text).value > bound
  }

  lemma MaxDateText()
    ensures NumberOf("2980013") == Int(MaxMumpsDate)
  {
    MaxDateDigits();
  }

  lemma MaxDateDigits()
    ensures NatToDigits(2980013) == "2980013"
  {
    assert NatToDigits(29) == "29";
    assert NatToDigits(298) == "298";
    assert NatToDigits(2980) == "2980";
    assert NatToDigits(29800) == "29800";
    assert NatToDigits(298001) == "298001";
  }

  lemma MaxTimeText()
    ensures NumberOf("86399") == Int(MaxMumpsTime)
  {
    MaxTimeDigits();
  }

  lemma MaxTimeDigits()
    ensures NatToDigits(86399) == "86399"
  {
    assert NatToDigits(86) == "86";
    assert NatToDigits(863) == "863";
    assert NatToDigits(8639) == "8639";
  }

  /** `checkMumpsMaxDate`: caps the day count at 2980013. */
  function CheckMumpsMaxDate(text: string): (r: string)
    ensures !Exceeds(r, MaxMumpsDate)
    ensures !Exceeds(text, MaxMumpsDate) ==> r == text
    ensures Exceeds(text, MaxMumpsDate) ==> r == "2980013" && NumberOf(r) == Int(MaxMumpsDate)
  {
    MaxDateText();
    if Exceeds(text, MaxMumpsDate) then "2980013" else text
  }

  /** `checkMumpsMaxTime`: caps the second count at 86399. */
  function CheckMumpsMaxTime(text: string): (r: string)
    ensures !Exceeds(r, MaxMumpsTime)
    ensures !Exceeds(text, MaxMumpsTime) ==> r == text
    ensures Exceeds(text, MaxMumpsTime) ==> r == "86399" && NumberOf(r) == Int(MaxMumpsTime)
  {
    MaxTimeText();
    if Exceeds(text, MaxMumpsTime) then "86399" else text
  }

  /** Capping twice caps no further than capping once. */
  lemma ClampsIdempotent(text: string)
    ensures CheckMumpsMaxDate(CheckMumpsMaxDate(text)) == CheckMumpsMaxDate(text)
    ensures CheckMumpsMaxTime(CheckMumpsMaxTime(text)) == CheckMumpsMaxTime(text)
  {
  }

  /** The date a day count stands for fixes the text `mumpsToDate` shows. */
  lemma ShowsDate(n: int, d: Date)
    requires d.Valid() && DayNumber(d) == EpochDay + n
    ensures DateOfMumps(n) == d
    ensures MumpsToDate(n) == FormatDate(d)
  {
    DateOfDayNumber(d);
  }

  /** 31/12/1840 is day 0, at any time of that day. */
  lemma EpochIsDayZero(t: Time)
    requires t.Valid()
    ensures DateToMumps(DateTime(Epoch, t)) == 0
    ensures DateOfMumps(0) == Epoch
    ensures MumpsToDate(0) == "31/12/1840"
  {
    EpochDayNumber();
    ShowsDate(0, Epoch);
    FormatFirstDate();
  }

  lemma FormatFirstDate()
    ensures FormatDate(Epoch) == "31/12/1840"
  {
    December31Fields();
    EpochYearField();
  }

  /** Day -1, the day before the epoch, is 30/12/1840. */
  lemma DayBeforeEpoch()
    ensures MumpsToDate(-1) == "30/12/1840"
  {
    var d := Date(1840, 12, 30);
    assert DayNumber(d) == EpochDay - 1 by {
      EpochDayNumber();
    }
    ShowsDate(-1, d);
    FormatDayBeforeEpoch();
  }

  /** The text of 30/12/1840. */
  lemma FormatDayBeforeEpoch()
    ensures FormatDate(Date(1840, 12, 30)) == "30/12/1840"
  {
    December30Fields();
    EpochYearField();
  }

  /** Day 2980012, the day before the last, is 30/12/9999. */
  lemma DayBeforeLastDate()
    ensures MumpsToDate(MaxMumpsDate - 1) == "30/12/9999"
  {
    var d := Date(9999, 12, 30);
    assert DayNumber(d) == EpochDay + MaxMumpsDate - 1 by {
      EpochDayNumber();
    }
    ShowsDate(MaxMumpsDate - 1, d);
    FormatDayBeforeLastDate();
  }

  /** The text of 30/12/9999. */
  lemma FormatDayBeforeLastDate()
    ensures FormatDate(Date(9999, 12, 30)) == "30/12/9999"
  {
    December30Fields();
    LastYearField();
  }

  /** The `yyyy` field of 1840, spelled digit by digit. */
  lemma EpochYearField()
    ensures Field(1840, 4) == "1840"
  {
    assert NatToDigits(18) == "18";
    assert NatToDigits(184) == "184";
    assert NatToDigits(1840) == "1840";
  }

  /** The `yyyy` field of 9999, spelled digit by digit. */
  lemma LastYearField()
    ensures Field(9999, 4) == "9999"
  {
    assert NatToDigits(99) == "99";
    assert NatToDigits(999) == "999";
    assert NatToDigits(9999) == "9999";
  }

  /** The `dd` and `MM` fields of 30 December. */
  lemma December30Fields()
    ensures Field(30, 2) == "30" && Field(12, 2) == "12"
  {
    assert NatToDigits(30) == "30";
    assert NatToDigits(12) == "12";
  }

  /** The `dd` and `MM` fields of 31 December. */
  lemma December31Fields()
    ensures Field(31, 2) == "31" && Field(12, 2) == "12"
  {
    assert NatToDigits(31) == "31";
    assert NatToDigits(12) == "12";
  }

  /** 31/12/9999, the last date the picker offers, is day 2980013. */
  lemma LastDateIsMax(t: Time)
    requires t.Valid()
    ensures DateToMumps(DateTime(Date(9999, 12, 31), t)) == MaxMumpsDate
    ensures DateOfMumps(MaxMumpsDate) == Date(9999, 12, 31)
    ensures MumpsToDate(MaxMumpsDate) == "31/12/9999"
  {
    LastDateShown();
  }

  lemma LastDateShown()
    ensures DayNumber(Date(9999, 12, 31)) == EpochDay + MaxMumpsDate
    ensures DateOfMumps(MaxMumpsDate) == Date(9999, 12, 31)
    ensures MumpsToDate(MaxMumpsDate) == "31/12/9999"
  {
    var last := Date(9999, 12, 31);
    assert DayNumber(last) == EpochDay + MaxMumpsDate;
    ShowsDate(MaxMumpsDate, last);
    FormatLastDate();
  }

  lemma FormatLastDate()
    ensures FormatDate(Date(9999, 12, 31)) == "31/12/9999"
  {
    December31Fields();
    LastYearField();
  }

  /** The day counts 0 to 2980013 fall in years 1840 to 9999. */
  lemma MumpsDateYears(n: int)
    requires 0 <= n <= MaxMumpsDate
    ensures 1840 <= DateOfMumps(n).year <= 9999
  {
    assert DaysBeforeYear(1840) <= EpochDay;
    assert EpochDay + MaxMumpsDate < DaysBeforeYear(10000);
    YearInRange(DateOfMumps(n), 1840, 9999);
  }

  /** Every day count of the date field, shown by `mumpsToDate` and read
      back, is a date of years 1840 to 9999 that `dateToMumps` counts back
      to the same day count, whatever the time of day. */
  lemma MumpsDateRoundTrip(n: int, t: Time)
    requires 0 <= n <= MaxMumpsDate
    requires t.Valid()
    ensures ParseDate(MumpsToDate(n)) == Some(DateOfMumps(n))
    ensures 1840 <= DateOfMumps(n).year <= 9999
    ensures DateToMumps(DateTime(DateOfMumps(n), t)) == n
  {
    DateOfMumpsRoundTrip(n, t);
  }

  /** A date and time picked on or after the epoch shows, through its day
      count, its own date. */
  lemma PickedDateRoundTrip(dt: DateTime)
    requires dt.Valid() && DayNumber(dt.date) >= EpochDay
    ensures MumpsToDate(DateToMumps(dt)) == FormatDate(dt.date)
  {
    DateToMumpsRoundTrip(dt);
  }

  /** `mumpsToTime` shows `s` as zero-padded hours, minutes and seconds,
      which read back give a time that `timeToMumps` counts back to `s`. */
  lemma MumpsTimeRoundTrip(s: int, date: Date)
    requires 0 <= s <= MaxMumpsTime
    requires date.Valid()
    ensures MumpsToTime(s) == Field(s / 3600, 2) + ":" + Field(s % 3600 / 60, 2) + ":" + Field(s % 60, 2)
    ensures ParseTime(MumpsToTime(s)) == Some(Time(s / 3600, s % 3600 / 60, s % 60))
    ensures TimeToMumps(DateTime(date, Time(s / 3600, s % 3600 / 60, s % 60))) == s
  {
    assert s % 86400 == s;
  }

  /** A picked time shows, through its second count, its own time of day. */
  lemma PickedTimeRoundTrip(dt: DateTime)
    requires dt.Valid()
    ensures MumpsToTime(TimeToMumps(dt)) == FormatTime(dt.time)
  {
    var s := TimeToMumps(dt);
    assert s % 86400 == s;
    assert TimeOf(s) == dt.time;
  }

  /** `mumpsToTime` shows only the time of day: a whole day more or less
      changes nothing. */
  lemma MumpsTimeWrapsDaily(n: int)
    ensures MumpsToTime(n + 86400) == MumpsToTime(n)
    ensures MumpsToTime(n) == MumpsToTime(n % 86400)
  {
    assert (n + 86400) % 86400 == n % 86400;
    assert n % 86400 % 86400 == n % 86400;
  }
}
