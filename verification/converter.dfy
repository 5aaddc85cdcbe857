/** The converter form: its display strings, the radio group and the two
    pickers' last values, with the four event handlers as pure transitions
    from one state to the next. The date pair (date text, MUMPS date text)
    and the time pair (time text, MUMPS time text) never touch each other. */
module Converter {
  import opened Wrappers
  import opened Numerals
  import opened Calendar
  import opened Display
  import opened Conversions

  /** The radio group: `$HOROLOG` (first button) or `$ZZPH` (second). */
  datatype Mode = Horolog | Zzph

  /** `Number(radioButtons[1].selected)`: the `$ZZPH` count runs one day
      ahead of the `$HOROLOG` count. */
  function Offset(m: Mode): (k: int)
    ensures k == 0 || k == 1
    ensures k == 1 <==> m == Zzph
  {
    if m.Zzph? then 1 else 0
  }

  datatype FormState = FormState(
    mode: Mode,
    selectedDate: DateTime,
    selectedTime: DateTime,
    dateText: string,
    mumpsDateText: string,
    timeText: string,
    mumpsTimeText: string)

  /** The gate on typed MUMPS text: `text.length > 0 && Number(text) >= 0`.
      NaN fails the comparison. Every run of digits the numeric fields'
      masks let through passes; nothing without a final digit does. */
  predicate Accepts(text: string): (ok: bool)
    ensures |text| > 0 && AllDigits(text) ==> ok
    ensures ok ==> |text| > 0 && IsDigit(text[|text| - 1])
  {
    |text| > 0 && NumberOf(text).Int? && NumberOf(text).value >= 0
  }

  function Min(a: int, b: int): int {
    if a <= b then a else b
  }

  /** `handleDateChanged`: the date picker returned `picked`, or nothing
      when it was dismissed. A picked date shows as `dd/MM/yyyy` and its day
      count, plus one in `$ZZPH` mode, goes to the MUMPS date field. */
  function HandleDateChanged(s: FormState, picked: Option<DateTime>): (r: FormState)
    requires picked.Some? ==> picked.value.Valid()
    ensures picked.None? ==> r == s
    ensures picked.Some? ==>
      r == s.(selectedDate := picked.value, dateText := FormatDate(picked.value.date),
              mumpsDateText := r.mumpsDateText)
    ensures picked.Some? ==>
      |r.mumpsDateText| > 0 &&
      NumberOf(r.mumpsDateText) == Int(DateToMumps(picked.value) + Offset(s.mode))
    ensures picked.Some? ==>
      r.mumpsDateText == IntToString(DateToMumps(picked.value) + Offset(s.mode))
  {
    match picked
    case Some(date) =>
      var days := IntToString(NumberOf(IntToString(DateToMumps(date))).value + Offset(s.mode));
      s.(selectedDate := date, dateText := FormatDate(date.date), mumpsDateText := days)
    case None =>
      if |s.mumpsDateText| == 0 then s.(mumpsDateText := "") else s
  }

  /** `handleMumpsDateChanged`: text typed into the MUMPS date field. Text
      the gate refuses only clears the date text. Accepted text is capped at
      2980013 into the MUMPS field, and the date that many days after the
      epoch, one day earlier in `$ZZPH` mode, is shown. */
  function HandleMumpsDateChanged(s: FormState, text: string): (r: FormState)
    ensures r == s.(dateText := r.dateText, mumpsDateText := r.mumpsDateText)
    ensures !Accepts(text) ==> r == s.(dateText := "")
    ensures Accepts(text) && NumberOf(text).value <= MaxMumpsDate ==> r.mumpsDateText == text
    ensures Accepts(text) && NumberOf(text).value > MaxMumpsDate ==> r.mumpsDateText == "2980013"
    ensures Accepts(text) ==>
      NumberOf(r.mumpsDateText) == Int(Min(NumberOf(text).value, MaxMumpsDate))
    ensures Accepts(text) ==>
      r.dateText == MumpsToDate(Min(NumberOf(text).value, MaxMumpsDate) - Offset(s.mode))
  {
    if Accepts(text) then
      var checked := CheckMumpsMaxDate(text);
      assert NumberOf(checked) == Int(Min(NumberOf(text).value, MaxMumpsDate));
      var days := NumberOf(checked).value - Offset(s.mode);
      // `mumpsToDate` reads back the decimal text of `days`
      var shown := NumberOf(IntToString(days)).value;
      assert shown == Min(NumberOf(text).value, MaxMumpsDate) - Offset(s.mode);
      s.(mumpsDateText := checked, dateText := MumpsToDate(shown))
    else
      s.(dateText := "")
  }

  /** `handleTimeChanged`: the time picker returned `picked`, or nothing
      when it was dismissed. A picked time shows as `HH:mm:ss` and its
      seconds since midnight go to the MUMPS time field. */
  function HandleTimeChanged(s: FormState, picked: Option<DateTime>): (r: FormState)
    requires picked.Some? ==> picked.value.Valid()
    ensures picked.None? ==> r == s
    ensures picked.Some? ==>
      r == s.(selectedTime := picked.value, timeText := FormatTime(picked.value.time),
              mumpsTimeText := r.mumpsTimeText)
    ensures picked.Some? ==>
      |r.mumpsTimeText| > 0 &&
      NumberOf(r.mumpsTimeText) == Int(SecondsOfDay(picked.value.time))
    ensures picked.Some? ==> r.mumpsTimeText == IntToString(SecondsOfDay(picked.value.time))
  {
    match picked
    case Some(time) =>
      var seconds := IntToString(TimeToMumps(time));
      s.(selectedTime := time, timeText := FormatTime(time.time), mumpsTimeText := seconds)
    case None =>
      if |s.mumpsTimeText| == 0 then s.(mumpsTimeText := "") else s
  }

  /** `handleMumpsTimeChanged`: text typed into the MUMPS time field. Text
      the gate refuses only clears the time text. Accepted text is capped at
      86399 into the MUMPS field, and that many seconds after midnight is
      shown. */
  function HandleMumpsTimeChanged(s: FormState, text: string): (r: FormState)
    ensures r == s.(timeText := r.timeText, mumpsTimeText := r.mumpsTimeText)
    ensures !Accepts(text) ==> r == s.(timeText := "")
    ensures Accepts(text) && NumberOf(text).value <= MaxMumpsTime ==> r.mumpsTimeText == text
    ensures Accepts(text) && NumberOf(text).value > MaxMumpsTime ==> r.mumpsTimeText == "86399"
    ensures Accepts(text) ==>
      NumberOf(r.mumpsTimeText) == Int(Min(NumberOf(text).value, MaxMumpsTime))
    ensures Accepts(text) ==>
      r.timeText == FormatTime(TimeOf(Min(NumberOf(text).value, MaxMumpsTime)))
  {
    if Accepts(text) then
      var checked := CheckMumpsMaxTime(text);
      var seconds := Min(NumberOf(text).value, MaxMumpsTime);
      assert NumberOf(checked) == Int(seconds);
      assert seconds % 86400 == seconds;
      s.(mumpsTimeText := checked, timeText := MumpsToTime(NumberOf(checked).value))
    else
      s.(timeText := "")
  }

  /** The `$ZZPH` offset cancels: typing back the number a picked date put
      in the MUMPS field changes nothing, in either mode, for any date the
      picker offers whose stored number is within the cap. */
  lemma PickedDateTypedBack(s: FormState, dt: DateTime)
    requires dt.Valid() && DayNumber(dt.date) >= EpochDay
    requires DateToMumps(dt) + Offset(s.mode) <= MaxMumpsDate
    ensures var r := HandleDateChanged(s, Some(dt));
            HandleMumpsDateChanged(r, r.mumpsDateText) == r
  {
    var r := HandleDateChanged(s, Some(dt));
    var n := DateToMumps(dt);
    var k := n + Offset(s.mode);
    assert NumberOf(r.mumpsDateText) == Int(k);
    TypedDateStored(r, r.mumpsDateText, k);
    TypedDateShown(r, r.mumpsDateText, k, n);
    PickedDateRoundTrip(dt);
  }

  /** The cap runs before the offset is taken off: in `$ZZPH` mode the
      last date, 31/12/9999, is stored as 2980014, and typing that number
      back shows 30/12/9999 next to 2980013. */
  lemma ZzphLastDateTypedBack(s: FormState, t: Time)
    requires s.mode == Zzph && t.Valid()
    ensures var r := HandleDateChanged(s, Some(DateTime(Date(9999, 12, 31), t)));
            var back := HandleMumpsDateChanged(r, r.mumpsDateText);
            && NumberOf(r.mumpsDateText) == Int(MaxMumpsDate + 1)
            && r.dateText == "31/12/9999"
            && back.mumpsDateText == "2980013"
            && back.dateText == "30/12/9999"
  {
    var r := HandleDateChanged(s, Some(DateTime(Date(9999, 12, 31), t)));
    LastDatePicked(s, t);
    TypedOverMax(r, r.mumpsDateText);
  }

  /** In `$HOROLOG` mode, picking 31/12/9999 shows "2980013", the largest
      day count the MUMPS field takes. */
  lemma HorologLastDatePicked(s: FormState, t: Time)
    requires s.mode == Horolog && t.Valid()
    ensures HandleDateChanged(s, Some(DateTime(Date(9999, 12, 31), t))).mumpsDateText == "2980013"
  {
    LastDateIsMax(t);
    MaxDateDigits();
  }

  /** In `$ZZPH` mode, picking 31/12/9999 stores 2980014. */
  lemma LastDatePicked(s: FormState, t: Time)
    requires s.mode == Zzph && t.Valid()
    ensures var r := HandleDateChanged(s, Some(DateTime(Date(9999, 12, 31), t)));
            && r.mode == Zzph && |r.mumpsDateText| > 0
            && NumberOf(r.mumpsDateText) == Int(MaxMumpsDate + 1)
            && r.dateText == "31/12/9999"
  {
    LastDateIsMax(t);
    FormatLastDate();
  }

  /** In `$ZZPH` mode, typing 2980014 stores 2980013 and shows the day
      before the last date. */
  lemma TypedOverMax(s: FormState, text: string)
    requires s.mode == Zzph && |text| > 0 && NumberOf(text) == Int(MaxMumpsDate + 1)
    ensures var back := HandleMumpsDateChanged(s, text);
            && back.mumpsDateText == "2980013"
            && back.dateText == "30/12/9999"
  {
    TypedDateStored(s, text, MaxMumpsDate + 1);
    TypedDateShown(s, text, MaxMumpsDate + 1, MaxMumpsDate - 1);
    DayBeforeLastDate();
  }

  /** What typing a non-negative day count `n` stores ... */
  lemma TypedDateStored(s: FormState, text: string, n: int)
    requires |text| > 0 && NumberOf(text) == Int(n) && n >= 0
    ensures var r := HandleMumpsDateChanged(s, text);
            && r == s.(dateText := r.dateText, mumpsDateText := r.mumpsDateText)
            && NumberOf(r.mumpsDateText) == Int(Min(n, MaxMumpsDate))
            && (n <= MaxMumpsDate ==> r.mumpsDateText == text)
            && (n > MaxMumpsDate ==> r.mumpsDateText == "2980013")
  {
    CountAccepted(text, n);
  }

  /** ... and shows: the date `shown` days after the epoch, where `shown`
      is the capped count less the mode's offset. */
  lemma TypedDateShown(s: FormState, text: string, n: int, shown: int)
    requires |text| > 0 && NumberOf(text) == Int(n) && n >= 0
    requires shown == Min(n, MaxMumpsDate) - Offset(s.mode)
    ensures HandleMumpsDateChanged(s, text).dateText == MumpsToDate(shown)
  {
    CountAccepted(text, n);
    AcceptedDateShown(s, text, shown);
  }

  /** Accepted text shows the date of any count equal to the capped count
      less the offset. */
  lemma AcceptedDateShown(s: FormState, text: string, shown: int)
    requires Accepts(text)
    requires shown == Min(NumberOf(text).value, MaxMumpsDate) - Offset(s.mode)
    ensures HandleMumpsDateChanged(s, text).dateText == MumpsToDate(shown)
  {
    AcceptedShowsCapped(s, text);
    SameDayCount(HandleMumpsDateChanged(s, text),
                 Min(NumberOf(text).value, MaxMumpsDate) - Offset(s.mode), shown);
  }

  /** The handler's own promise about the shown date, as a lemma to call. */
  lemma AcceptedShowsCapped(s: FormState, text: string)
    requires Accepts(text)
    ensures HandleMumpsDateChanged(s, text).dateText ==
            MumpsToDate(Min(NumberOf(text).value, MaxMumpsDate) - Offset(s.mode))
  {
  }

  /** A form showing the date of one day count shows that of an equal count. */
  lemma SameDayCount(r: FormState, a: int, b: int)
    requires a == b && r.dateText == MumpsToDate(a)
    ensures r.dateText == MumpsToDate(b)
  {
  }

  /** Text that reads as a non-negative count passes the gate. */
  lemma CountAccepted(text: string, n: int)
    requires |text| > 0 && NumberOf(text) == Int(n) && n >= 0
    ensures Accepts(text) && NumberOf(text).value == n
  {
  }

  /** In `$ZZPH` mode a typed 0 is the day before the epoch. */
  lemma ZzphTypedZero(s: FormState)
    requires s.mode == Zzph
    ensures HandleMumpsDateChanged(s, "0").mumpsDateText == "0"
    ensures HandleMumpsDateChanged(s, "0").dateText == "30/12/1840"
  {
    assert Accepts("0") && NumberOf("0") == Int(0);
    DayBeforeEpoch();
  }

  /** Typing the largest day count in `$HOROLOG` mode shows 31/12/9999. */
  lemma HorologTypedMax(s: FormState)
    requires s.mode == Horolog
    ensures HandleMumpsDateChanged(s, "2980013").dateText == "31/12/9999"
  {
    MaxDateText();
    TypedDateShown(s, "2980013", MaxMumpsDate, MaxMumpsDate);
    LastDateShown();
  }

  /** Typed text that is empty or negative only clears the shown date or
      time; the MUMPS fields keep their text. */
  lemma TypedEmptyRejected(s: FormState)
    ensures HandleMumpsDateChanged(s, "") == s.(dateText := "")
    ensures HandleMumpsTimeChanged(s, "") == s.(timeText := "")
  {
  }

  lemma TypedNegativeRejected(s: FormState)
    ensures HandleMumpsDateChanged(s, "-5") == s.(dateText := "")
    ensures HandleMumpsTimeChanged(s, "-5") == s.(timeText := "")
  {
    MinusFive();
  }

  lemma MinusFive()
    ensures NumberOf("-5") == Int(-5)
  {
    var s := "-5";
    assert !DigitsIn(s, 0, 1) && !DigitsIn(s, 0, 2);
    assert DigitsIn(s, 1, 2) && ValueIn(s, 1, 2) == 5;
  }

  /** A typed day count from the offset up to the cap shows a date which,
      picked from the picker's range at any time of day, gives the same day
      count back. */
  lemma TypedDateThenPicked(s: FormState, text: string, d: Date, t: Time)
    requires Accepts(text) && Offset(s.mode) <= NumberOf(text).value <= MaxMumpsDate
    requires d.Valid() && 1840 <= d.year <= 9999 && t.Valid()
    requires FormatDate(d) == HandleMumpsDateChanged(s, text).dateText
    ensures var again := HandleDateChanged(HandleMumpsDateChanged(s, text), Some(DateTime(d, t)));
            again.dateText == FormatDate(d) && NumberOf(again.mumpsDateText) == NumberOf(text)
  {
    TypedDateCountsBack(s, text, d, t);
    CountPickedBack(s, text, DateTime(d, t));
  }

  /** Picking, after typing `text`, a date whose day count is the typed
      number less the offset stores the typed number again. */
  lemma CountPickedBack(s: FormState, text: string, dt: DateTime)
    requires Accepts(text) && NumberOf(text).value <= MaxMumpsDate && dt.Valid()
    requires DateToMumps(dt) == NumberOf(text).value - Offset(s.mode)
    ensures var again := HandleDateChanged(HandleMumpsDateChanged(s, text), Some(dt));
            again.dateText == FormatDate(dt.date) && NumberOf(again.mumpsDateText) == NumberOf(text)
  {
    var v := NumberOf(text).value;
    TypedDateStored(s, text, v);
    PickedAfter(HandleMumpsDateChanged(s, text), s.mode, dt, v);
  }

  /** Picking, in a form whose mode is `m`, a date whose day count is `v`
      less the offset of `m` stores text reading as `v`. */
  lemma PickedAfter(r: FormState, m: Mode, dt: DateTime, v: int)
    requires r.mode == m && dt.Valid() && DateToMumps(dt) == v - Offset(m)
    ensures var again := HandleDateChanged(r, Some(dt));
            again.dateText == FormatDate(dt.date) && NumberOf(again.mumpsDateText) == Int(v)
  {
    PickedDateStored(r, dt, v - Offset(m));
  }

  /** The date a typed day count shows, picked at any time of day, counts
      back to the typed number less the mode's offset. */
  lemma TypedDateCountsBack(s: FormState, text: string, d: Date, t: Time)
    requires Accepts(text) && Offset(s.mode) <= NumberOf(text).value <= MaxMumpsDate
    requires d.Valid() && 1840 <= d.year <= 9999 && t.Valid()
    requires FormatDate(d) == HandleMumpsDateChanged(s, text).dateText
    ensures DateToMumps(DateTime(d, t)) == NumberOf(text).value - Offset(s.mode)
  {
    var v := NumberOf(text).value;
    var n := v - Offset(s.mode);
    TypedDateShown(s, text, v, n);
    ShownDateCountsBack(n, d, t);
  }

  /** What picking `dt`, whose day count is `n`, shows and stores. */
  lemma PickedDateStored(s: FormState, dt: DateTime, n: int)
    requires dt.Valid() && DateToMumps(dt) == n
    ensures var r := HandleDateChanged(s, Some(dt));
            && r.dateText == FormatDate(dt.date)
            && NumberOf(r.mumpsDateText) == Int(n + Offset(s.mode))
  {
  }

  /** A date of the picker's range shown as the same text as day count `n`
      counts back to `n`. */
  lemma ShownDateCountsBack(n: int, d: Date, t: Time)
    requires 0 <= n <= MaxMumpsDate
    requires d.Valid() && 1840 <= d.year <= 9999 && t.Valid()
    requires FormatDate(d) == MumpsToDate(n)
    ensures DateToMumps(DateTime(d, t)) == n
  {
    MumpsDateRoundTrip(n, t);
    FormatDateInjective(d, DateOfMumps(n));
  }

  /** Typing back the number a picked time put in the MUMPS field changes
      nothing. */
  lemma PickedTimeTypedBack(s: FormState, dt: DateTime)
    requires dt.Valid()
    ensures var r := HandleTimeChanged(s, Some(dt));
            HandleMumpsTimeChanged(r, r.mumpsTimeText) == r
  {
    TimeOfSecondsOfDay(dt.time);
  }

  /** A typed second count up to the cap shows a time which, picked, gives
      the same second count back. */
  lemma TypedTimeThenPicked(s: FormState, text: string, date: Date)
    requires Accepts(text) && NumberOf(text).value <= MaxMumpsTime && date.Valid()
    ensures var r := HandleMumpsTimeChanged(s, text);
            var t := TimeOf(NumberOf(text).value);
            && r.timeText == FormatTime(t)
            && var again := HandleTimeChanged(r, Some(DateTime(date, t)));
               again.timeText == r.timeText && NumberOf(again.mumpsTimeText) == NumberOf(text)
  {
  }

  /** Picking 14:05:30 stores 14 * 3600 + 5 * 60 + 30 = 50730 seconds. */
  lemma PickedTimeExample(s: FormState, date: Date)
    requires date.Valid()
    ensures HandleTimeChanged(s, Some(DateTime(date, Time(14, 5, 30)))).mumpsTimeText == "50730"
  {
    assert TimeToMumps(DateTime(date, Time(14, 5, 30))) == 50730;
    PickedSecondsText();
  }

  /** `String(50730)`, spelled digit by digit. */
  lemma PickedSecondsText()
    ensures IntToString(50730) == "50730"
  {
    assert NatToDigits(5) == "5";
    assert NatToDigits(50) == "50";
    assert NatToDigits(507) == "507";
    assert NatToDigits(5073) == "5073";
    assert NatToDigits(50730) == "50730";
  }

  /** A dismissed picker leaves the whole form as it was; an empty MUMPS
      field stays empty. */
  lemma PickerDismissed(s: FormState)
    ensures HandleDateChanged(s, None) == s
    ensures HandleTimeChanged(s, None) == s
  {
  }
}
