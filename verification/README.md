# MUMPS date converter — a Dafny model

The MUMPS date converter is a one-screen React Native app. It shows a
calendar date and a clock time next to their MUMPS `$HOROLOG` numbers:

- a MUMPS date is the number of days since 31/12/1840, which is day 0;
- a MUMPS time is the number of seconds since midnight.

A radio group picks `$HOROLOG` or `$ZZPH`. In `$ZZPH` mode the stored day
count runs one day ahead.

This project models the core of `src/App.tsx` as pure Dafny:

- the four conversions: `dateToMumps`, `mumpsToDate`, `timeToMumps` and
  `mumpsToTime`;
- the two caps: `checkMumpsMaxDate` (2980013, which is 31/12/9999) and
  `checkMumpsMaxTime` (86399, which is 23:59:59);
- the four event handlers, each as a transition from one form state to the
  next: `handleDateChanged`, `handleMumpsDateChanged`, `handleTimeChanged`
  and `handleMumpsTimeChanged`.

The model is split into modules:

- `Numerals` models decimal text. It gives JavaScript's `String(n)` for
  integers and `Number(text)` for the text a numeric field can hold.
- `Calendar` models the proleptic Gregorian calendar on a naive local clock.
  Day numbers count from 0001-01-01, and `DateOf` inverts `DayNumber`.
- `Display` models the `dd/MM/yyyy` and `HH:mm:ss` formats and reads them back.
- `Conversions` holds the four conversions and the two caps.
- `Converter` holds the form state, the four handlers, and lemmas about
  sequences of user actions.

The proved properties include:

- both caps;
- acceptance and rejection of typed MUMPS text;
- round trips between a picked date or time and its MUMPS number, in both
  directions;
- the cancelling of the `$ZZPH` offset: typing back the number a picked date
  stored changes nothing, when the date is on or after the epoch and the
  stored number is within the cap (2980013);
- a dismissed picker leaves the form as it was.

Two behaviours of the code as written are stated as lemmas:

- In `$ZZPH` mode, picking 31/12/9999 stores 2980014, one more than the date
  field's cap. Typing that number back caps it to 2980013 and shows
  30/12/9999 (`Converter.ZzphLastDateTypedBack`).
- In `$ZZPH` mode, a typed 0 shows 30/12/1840, the day before the epoch
  (`Converter.ZzphTypedZero`).

## Model

| member | source | states |
|---|---|---|
| Numerals.NatToDigits | src/App.tsx:139-141 | The decimal spelling of a natural number is a non-empty run of digits without a leading zero, and it reads back as that number. |
| Numerals.IntToString | src/App.tsx:139-141 | `String(n)` is never empty, and `Number` of it gives `n` back, negative numbers included. It is the shortest spelling: digits only with no leading zero when `n >= 0`; a '-' followed by such digits when `n < 0`. |
| Numerals.CanonicalDigits | src/App.tsx:139-143 | A run of digits with no leading zero is exactly `String` of its value, so `String(n)` is the only such spelling of `n`. |
| Numerals.NumberOf | src/App.tsx:158-166 | Text that `Number` reads as a number, other than the empty text, ends in a digit. |
| Numerals.PadLeft | src/App.tsx:88-91 | Zero-padding keeps a run of digits a run of digits and keeps its value; the result is `width` long when the text was shorter. |
| Display.Field | src/App.tsx:88-91 | A `dd`/`MM`/`yyyy` field reads back as its number, and it is exactly `width` digits long when the number fits. |
| Display.EraYear | src/App.tsx:88-91 | The `yyyy` token prints a positive year as itself and never prints 0 or a negative year. |
| Display.FormatDate | src/App.tsx:88-91 | `format(date, 'dd/MM/yyyy')` shows a date of years 1 to 9999 in ten characters, which read back as the same date. |
| Display.FormatDateInjective | src/App.tsx:88-91 | Two dates of years 1 to 9999 that show the same `dd/MM/yyyy` text are the same date. |
| Display.FormatTime | src/App.tsx:106-109 | `format(time, 'HH:mm:ss')` shows a valid clock time in eight characters, which read back as the same time. |
| Calendar.YearStep | src/App.tsx:88-91 | Consecutive years start 365 or 366 days apart, following the leap-year rule. |
| Calendar.YearOf | src/App.tsx:88-91 | Every day number, before or after year 1, lies in a year whose first day is not after it and whose successor's first day is after it. |
| Calendar.YearUnique | src/App.tsx:88-91 | Only one year contains a given day number. |
| Calendar.MonthFrom | src/App.tsx:88-91 | A day of the year lies in a month whose first day is not after it and whose last day is not before it. |
| Calendar.MonthUnique | src/App.tsx:88-91 | The months tile the year: searching from any earlier month finds the one month that holds the day. |
| Calendar.DayNumberInjective | src/App.tsx:88-91 | Two valid dates with the same day number are the same date. |
| Calendar.DateOf | src/App.tsx:88-91 | `addDays` lands on a valid date whose day number is the requested one; the date is found by counting whole years, then months, then days. |
| Calendar.DateOfDayNumber | src/App.tsx:88-91 | Every valid date is the date of its own day number, so `DateOf` inverts `DayNumber`. |
| Calendar.YearInRange | src/App.tsx:88-91 | A day number between the first day of year `lo` and the last day of year `hi` belongs to a date in years `lo` to `hi`. |
| Calendar.TimeOf | src/App.tsx:105-112 | The time `s` seconds after midnight is a valid clock time with `s` seconds since midnight. |
| Calendar.TimeOfSecondsOfDay | src/App.tsx:114-124 | Counting a clock time's seconds since midnight and turning them back into a time gives the same time. |
| Conversions.EpochDayNumber | src/App.tsx:96-103 | The epoch, 31/12/1840, is day 672045 counted from 0001-01-01. |
| Conversions.DateToMumps | src/App.tsx:96-103 | From the epoch on, the count is the calendar-day difference whatever the time of day; before the epoch, a partial day counts one day nearer zero. |
| Conversions.DateOfMumps | src/App.tsx:87-94 | The date `n` days after the epoch is valid and lies exactly `n` day numbers past the epoch. |
| Conversions.MumpsToDate | src/App.tsx:87-94 | Every day count from 0 to 2980013 shows a date of years 1840 to 9999, in ten characters that read back as the date `n` days after the epoch. |
| Conversions.MumpsToTime | src/App.tsx:105-112 | The text shown for a second count is eight characters, which read back as the time of day that many seconds after midnight, whole days dropped. |
| Conversions.DateOfMumpsRoundTrip | src/App.tsx:87-103 | `dateToMumps` of the date `n` days after the epoch is `n` again, at any time of day from the epoch on and at midnight before it. |
| Conversions.DateToMumpsRoundTrip | src/App.tsx:87-103 | A date on or after the epoch is the date its own day count leads back to. |
| Conversions.TimeToMumps | src/App.tsx:114-124 | The second count of a time lies in 0 to 86399 and turns back into the same time of day. |
| Conversions.ClampsIdempotent | src/App.tsx:151-156 | Capping already-capped text changes nothing, for the date cap and for the time cap. |
| Conversions.MaxDateText | src/App.tsx:151-156 | The text the date cap returns, "2980013", reads as 2980013. |
| Conversions.MaxTimeText | src/App.tsx:244-249 | The text the time cap returns, "86399", reads as 86399. |
| Conversions.CheckMumpsMaxDate | src/App.tsx:151-156 | The result never exceeds 2980013. Text not above 2980013, NaN included, is returned unchanged; text above it becomes exactly "2980013". |
| Conversions.CheckMumpsMaxTime | src/App.tsx:244-249 | The result never exceeds 86399. Text not above 86399 is returned unchanged; text above it becomes exactly "86399". |
| Conversions.ShowsDate | src/App.tsx:87-94 | A day count whose date is `d` is shown as the text of `d`. |
| Conversions.EpochIsDayZero | src/App.tsx:87-103 | 31/12/1840 at any time of day counts as day 0, and day 0 is shown as "31/12/1840". |
| Conversions.DayBeforeEpoch | src/App.tsx:87-94 | Day -1 is shown as "30/12/1840". |
| Conversions.DayBeforeLastDate | src/App.tsx:87-94 | Day 2980012 is shown as "30/12/9999". |
| Conversions.LastDateIsMax | src/App.tsx:96-103 | 31/12/9999, the picker's last date, counts as 2980013 at any time of day, and 2980013 is shown as "31/12/9999". |
| Conversions.MumpsDateYears | src/App.tsx:87-94 | Every day count from 0 to 2980013 is a date in a year from 1840 to 9999. |
| Conversions.MumpsDateRoundTrip | src/App.tsx:87-103 | Every day count from 0 to 2980013 is shown as a date text that reads back as its date, and that date counts back to the same number. |
| Conversions.PickedDateRoundTrip | src/App.tsx:87-103 | A date picked on or after the epoch, shown through its day count, is shown as its own date. |
| Conversions.MumpsTimeRoundTrip | src/App.tsx:105-124 | Every second count from 0 to 86399 is shown as zero-padded hours, minutes and seconds, which read back as a time that counts back to the same number. |
| Conversions.PickedTimeRoundTrip | src/App.tsx:105-124 | A picked time, shown through its second count, is shown as its own time. |
| Conversions.MumpsTimeWrapsDaily | src/App.tsx:105-112 | Only the time of day of the sum is shown, so adding a whole day, or reducing modulo a day, shows the same text. |
| Converter.Accepts | src/App.tsx:160 | Every non-empty run of digits passes the gate `length > 0 && Number(text) >= 0`, and no text that passes ends in anything but a digit. |
| Converter.Offset | src/App.tsx:42-55 | The `$ZZPH` button adds 1 and the `$HOROLOG` button adds 0. |
| Converter.HandleDateChanged | src/App.tsx:130-149 | A dismissed picker leaves the state unchanged. A picked date is recorded and shown as `dd/MM/yyyy`. Its day count plus the mode's offset goes to the MUMPS field as `String` of that number. No other field changes. |
| Converter.HandleMumpsDateChanged | src/App.tsx:158-175 | Rejected text only clears the date text. Accepted text within the cap is kept; accepted text above it is replaced by exactly "2980013". The MUMPS field reads as the capped number. The date shown is the capped number less the offset, in days after the epoch. No other field changes. |
| Converter.HandleTimeChanged | src/App.tsx:225-242 | A dismissed picker leaves the state unchanged. A picked time is recorded and shown as `HH:mm:ss`. Its seconds since midnight go to the MUMPS field as `String` of that number. No other field changes. |
| Converter.HandleMumpsTimeChanged | src/App.tsx:251-263 | Rejected text only clears the time text. Accepted text within the cap is kept; accepted text above it is replaced by exactly "86399". The MUMPS field reads as the capped number. The time shown is that many seconds after midnight. No other field changes. |
| Converter.PickedDateTypedBack | src/App.tsx:130-175 | The offset cancels: typing back the number a picked date stored leaves the whole form unchanged, in either mode, whenever that number is within the cap. |
| Converter.ZzphLastDateTypedBack | src/App.tsx:130-175 | In `$ZZPH` mode, picking 31/12/9999 stores 2980014. Typing it back stores exactly "2980013" and shows 30/12/9999. |
| Converter.HorologLastDatePicked | src/App.tsx:130-149 | In `$HOROLOG` mode, picking 31/12/9999 at any time of day puts exactly "2980013" in the MUMPS field. |
| Converter.LastDatePicked | src/App.tsx:130-149 | In `$ZZPH` mode, picking 31/12/9999 shows "31/12/9999" and stores text reading 2980014. |
| Converter.TypedOverMax | src/App.tsx:151-175 | In `$ZZPH` mode, typed text reading 2980014 is replaced by exactly "2980013" and 30/12/9999 is shown. |
| Converter.TypedDateStored | src/App.tsx:158-175 | Typed text reading as a count of 0 or more stores text reading as the capped count. Text within the cap is kept as typed; text above it is replaced by exactly "2980013". Only the two date texts change. |
| Converter.TypedDateShown | src/App.tsx:158-175 | Typed text reading as a count of 0 or more shows the date of the capped count less the mode's offset. |
| Converter.ZzphTypedZero | src/App.tsx:158-175 | In `$ZZPH` mode, typing "0" keeps "0" and shows 30/12/1840. |
| Converter.HorologTypedMax | src/App.tsx:151-175 | In `$HOROLOG` mode, typing "2980013" shows 31/12/9999. |
| Converter.TypedEmptyRejected | src/App.tsx:158-175 | Empty typed text clears only the shown date, or only the shown time. |
| Converter.TypedNegativeRejected | src/App.tsx:158-175 | Typed "-5" is rejected by both handlers and clears only the shown date or time. |
| Converter.MinusFive | src/App.tsx:158-175 | `Number("-5")` is -5, so the gate's `>= 0` test is what rejects it. |
| Converter.TypedDateThenPicked | src/App.tsx:130-175 | After a typed count from the offset up to the cap, picking the date shown, at any time of day, shows it again and stores the typed number again. |
| Converter.TypedDateCountsBack | src/App.tsx:130-175 | The date shown for a typed count, picked at any time of day, counts back to the typed number less the offset. |
| Converter.CountPickedBack | src/App.tsx:130-175 | After typed text, picking a date whose count is the typed number less the offset stores text reading as the typed number. |
| Converter.PickedDateStored | src/App.tsx:130-149 | Picking a date shows its `dd/MM/yyyy` text and stores its day count plus the mode's offset. |
| Converter.ShownDateCountsBack | src/App.tsx:87-103 | A date in the picker's range that is shown as the same text as day count `n` counts back to `n`. |
| Converter.PickedTimeTypedBack | src/App.tsx:225-263 | Typing back the number a picked time stored leaves the whole form unchanged. |
| Converter.TypedTimeThenPicked | src/App.tsx:225-263 | A typed second count within the cap shows a time. Picking that time on any date shows the same text and stores a number equal to the typed one. |
| Converter.PickedTimeExample | src/App.tsx:225-242 | Picking 14:05:30 stores "50730". |
| Converter.PickerDismissed | src/App.tsx:130-149 | A dismissed date or time picker leaves the whole form as it was. |

## Left out

- `handlePressRadioButton` (`src/App.tsx:177-198`) is not modelled. It re-runs the date conversion with `radioButtons` captured by its callback. Whether that value is the new selection depends on whether the radio-group library mutates the button objects in place, and that library is not part of this model. `Mode` is a field of the state that the other handlers read.
- Picker visibility (`handleToggleDatePicker`, `handleToggleTimePicker`, the Android `setShow…Picker(false)` calls), focus state and rendering are UI plumbing with no effect on the values.
- The initial state (`src/App.tsx:59-85`) reads the system clock. The model starts from any state.
- The commented-out block at `src/App.tsx:200-219` is dead code.
- Time zones and daylight-saving transitions are left out. The calendar is a naive local clock with every day 86400 seconds long, which is what `date-fns` computes when no transition intervenes.
- Milliseconds are left out; a `DateTime` is kept to the second. From the epoch on they change no result: `differenceInDays` counts calendar days, `differenceInSeconds` truncates to whole seconds, and both formats show whole seconds at most. Before the epoch they can: `differenceInDays` compares the times of day down to the millisecond, so a time with zero whole seconds but some milliseconds is a partial day to date-fns (30/12/1840 00:00:00.500 counts 0) and a full day to the model (it counts -1). The date picker's `minimumDate` (`src/App.tsx:315`) keeps such dates out of the form.
- The JavaScript `Date` range limit (about ±273,790 years) is left out; the calendar is unbounded.
- Numerals.NumberOf: reads only the empty text (as 0) and optionally signed decimal integers; other text is NaN. JavaScript's `Number` also accepts surrounding whitespace, decimals, exponents, hexadecimal and `Infinity`, and it loses precision beyond 2^53. The fields' input masks (`[0000000]` and `[00000]`) admit only digits, so these cases do not arise from the form.
- The input masks belong to the input component library. The model lets the handlers receive any text, which is a superset of what the masks let through.
- `mumpsToDate` and `mumpsToTime` on text that is not a number would format an invalid `Date` and throw. The handlers never pass such text: `mumpsToDate` receives `String` of an integer (`src/App.tsx:166`), and `mumpsToTime` receives the capped text, which passed the gate, so `Number` reads it as a value of 0 or more (`src/App.tsx:252-257`). The model takes the number directly.
- Conversions.TimeToMumps: promises 0 to 86399 for every year, but JavaScript's multi-argument `Date` constructor (`src/App.tsx:120`) reads years 0 to 99 as 1900 to 1999, so for a picked `Date` in those years `timeToMumps` would be about 1900 years of seconds off. The form never reaches this: the time picker is handed `selectedTime`, which starts on the current day.
