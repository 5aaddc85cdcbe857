/** The two display formats of the converter, `dd/MM/yyyy` and `HH:mm:ss`,
    and a reading of each back into a date or a time, so that round trips
    through the displayed text can be stated. */
module Display {
  import opened Wrappers
  import opened Numerals
  import opened Calendar

  /** The 'yyyy' token prints the year of the era: year 0 (1 BC) prints as 1. */
  function EraYear(y: int): (e: nat)
    ensures e >= 1
    ensures y >= 1 ==> e == y
  {
    if y > 0 then y else 1 - y
  }

  /** A number printed zero-padded to at least `width` digits. */
  function Field(n: nat, width: nat): (s: string)
    ensures AllDigits(s) && DigitsValue(s) == n
    ensures n < Pow10(width) && width > 0 ==> |s| == width
  {
    var s := PadLeft(NatToDigits(n), width);
    if n < Pow10(width) && width > 0 then DigitsLength(n, width); s else s
  }

  /** The text `format(date, 'dd/MM/yyyy')` shows for a date. A date of
      years 1 to 9999 takes exactly ten characters and can be read back
      from them. */
  function FormatDate(d: Date): (text: string)
    requires d.Valid()
    ensures 1 <= d.year <= 9999 ==> |text| == 10 && ParseDate(text) == Some(d)
  {
    var dd, mm, yyyy := Field(d.day, 2), Field(d.month, 2), Field(EraYear(d.year), 4);
    SplitFields(dd, mm, yyyy, '/');
    dd + "/" + mm + "/" + yyyy
  }

  /** Two dates of years 1 to 9999 that show the same text are the same
      date. */
  lemma FormatDateInjective(d: Date, e: Date)
    requires d.Valid() && 1 <= d.year <= 9999
    requires e.Valid() && 1 <= e.year <= 9999
    requires FormatDate(d) == FormatDate(e)
    ensures d == e
  {
    assert Some(d) == ParseDate(FormatDate(d)) == ParseDate(FormatDate(e)) == Some(e);
  }

  /** The text `format(time, 'HH:mm:ss')` shows for a clock time: exactly
      eight characters, which read back as the same time. */
  function FormatTime(t: Time): (text: string)
    requires t.Valid()
    ensures |text| == 8 && ParseTime(text) == Some(t)
  {
    var hh, mm, ss := Field(t.hour, 2), Field(t.minute, 2), Field(t.second, 2);
    SplitFields(hh, mm, ss, ':');
    hh + ":" + mm + ":" + ss
  }

  /** Reads a `dd/MM/yyyy` text of a date of the common era. */
  function ParseDate(s: string): (r: Option<Date>)
    ensures r.Some? ==> r.value.Valid() && r.value.year >= 1
  {
    if |s| == 10 && s[2] == '/' && s[5] == '/'
       && DigitsIn(s, 0, 2) && DigitsIn(s, 3, 5) && DigitsIn(s, 6, 10)
    then
      var d := Date(ValueIn(s, 6, 10), ValueIn(s, 3, 5), ValueIn(s, 0, 2));
      if d.Valid() && d.year >= 1 then Some(d) else None
    else None
  }

  /** Reads a `HH:mm:ss` text of a clock time. */
  function ParseTime(s: string): (r: Option<Time>)
    ensures r.Some? ==> r.value.Valid()
  {
    if |s| == 8 && s[2] == ':' && s[5] == ':'
       && DigitsIn(s, 0, 2) && DigitsIn(s, 3, 5) && DigitsIn(s, 6, 8)
    then
      var t := Time(ValueIn(s, 0, 2), ValueIn(s, 3, 5), ValueIn(s, 6, 8));
      if t.Valid() then Some(t) else None
    else None
  }

  /** The three fields of a two-separator text read as they were written. */
  lemma SplitFields(a: string, b: string, c: string, sep: char)
    requires |a| == 2 && |b| == 2 && AllDigits(a) && AllDigits(b) && AllDigits(c)
    ensures var s := a + [sep] + b + [sep] + c;
      && |s| == 6 + |c| && s[2] == sep && s[5] == sep
      && DigitsIn(s, 0, 2) && ValueIn(s, 0, 2) == DigitsValue(a)
      && DigitsIn(s, 3, 5) && ValueIn(s, 3, 5) == DigitsValue(b)
      && DigitsIn(s, 6, |s|) && ValueIn(s, 6, |s|) == DigitsValue(c)
  {
    var head := a + [sep] + b + [sep];
    var s := head + c;
    assert s[0] == a[0] && s[1] == a[1] && s[3] == b[0] && s[4] == b[1];
    SameDigits(a, 0, 2, s, 0);
    SameDigits(b, 0, 2, s, 3);
    Appended(head, c);
  }
}
