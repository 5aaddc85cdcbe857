/** Decimal text, as the converter's numeric fields hold it, and the part of
    JavaScript's `Number(text)` and `String(n)` that those fields exercise. */
module Numerals {

  /** A JavaScript number, as far as integer text can produce one. */
  datatype Numeric = NaN | Int(value: int)

  predicate IsDigit(c: char) {
    '0' <= c <= '9'
  }

  /** The characters of `s` at positions `lo` up to `hi` are decimal digits. */
  predicate DigitsIn(s: string, lo: nat, hi: nat)
    requires lo <= hi <= |s|
    decreases hi - lo
  {
    lo == hi || (DigitsIn(s, lo, hi - 1) && IsDigit(s[hi - 1]))
  }

  /** Every character of `s` is a decimal digit. */
  predicate AllDigits(s: string) {
    DigitsIn(s, 0, |s|)
  }

  /** Each position of a run of digits holds a digit. */
  lemma {:induction false} DigitAt(s: string, lo: nat, hi: nat, i: nat)
    requires lo <= i < hi <= |s| && DigitsIn(s, lo, hi)
    ensures IsDigit(s[i])
    decreases hi - lo
  {
    if i < hi - 1 {
      DigitAt(s, lo, hi - 1, i);
    }
  }

  function DigitValue(c: char): (d: nat)
    requires IsDigit(c)
    ensures d < 10
  {
    c as int - '0' as int
  }

  function DigitChar(d: nat): (c: char)
    requires d < 10
    ensures IsDigit(c) && DigitValue(c) == d
  {
    (d + '0' as int) as char
  }

  /** The value of the digits of `s` at positions `lo` up to `hi`, most
      significant first. */
  function ValueIn(s: string, lo: nat, hi: nat): nat
    requires lo <= hi <= |s| && DigitsIn(s, lo, hi)
    decreases hi - lo
  {
    if lo == hi then 0 else 10 * ValueIn(s, lo, hi - 1) + DigitValue(s[hi - 1])
  }

  /** The value of a string of decimal digits. */
  function DigitsValue(s: string): nat
    requires AllDigits(s)
  {
    ValueIn(s, 0, |s|)
  }

  /** Digits and their value depend only on the characters in range: the
      same characters `k` positions further on in `t` read the same. */
  lemma {:induction false} SameDigits(s: string, lo: nat, hi: nat, t: string, k: nat)
    requires lo <= hi <= |s| && hi + k <= |t|
    requires forall i :: lo <= i < hi ==> s[i] == t[i + k]
    ensures DigitsIn(s, lo, hi) == DigitsIn(t, lo + k, hi + k)
    ensures DigitsIn(s, lo, hi) ==> ValueIn(s, lo, hi) == ValueIn(t, lo + k, hi + k)
    decreases hi - lo
  {
    if lo < hi {
      SameDigits(s, lo, hi - 1, t, k);
      assert s[hi - 1] == t[hi - 1 + k];
    }
  }

  function Pow10(k: nat): (p: nat)
    ensures p >= 1
  {
    if k == 0 then 1 else 10 * Pow10(k - 1)
  }

  /** The shortest decimal spelling of `n`: no sign, no leading zero. */
  function NatToDigits(n: nat): (s: string)
    ensures |s| > 0 && AllDigits(s)
    ensures DigitsValue(s) == n
    ensures s[0] == '0' ==> |s| == 1
    decreases n
  {
    if n < 10 then
      var s := [DigitChar(n)];
      assert DigitsIn(s, 0, 0) && ValueIn(s, 0, 0) == 0;
      s
    else
      var prefix := NatToDigits(n / 10);
      Appended(prefix, [DigitChar(n % 10)]);
      prefix + [DigitChar(n % 10)]
  }

  /** A run of digits without a leading zero is the only such spelling of
      its value: it is the text `String` gives for that value. */
  lemma {:induction false} CanonicalDigits(s: string)
    requires |s| > 0 && AllDigits(s) && (s[0] == '0' ==> |s| == 1)
    ensures IntToString(DigitsValue(s)) == s
    decreases |s|
  {
    var v := DigitsValue(s);
    var last := s[|s| - 1];
    DigitAt(s, 0, |s|, |s| - 1);
    assert DigitChar(DigitValue(last)) == last;
    if |s| == 1 {
      assert v == DigitValue(last);
      assert NatToDigits(v) == [last] == s;
    } else {
      var p := s[..|s| - 1];
      assert s == p + [last];
      assert forall i :: 0 <= i < |p| ==> p[i] == s[i + 0];
      SameDigits(p, 0, |p|, s, 0);
      CanonicalDigits(p);
      LeadingDigit(p, |p|);
      assert v == 10 * DigitsValue(p) + DigitValue(last);
      assert v >= 10 && v / 10 == DigitsValue(p) && v % 10 == DigitValue(last);
      assert NatToDigits(v) == NatToDigits(v / 10) + [DigitChar(v % 10)];
    }
  }

  /** A run of digits is worth at least its first digit. */
  lemma {:induction false} LeadingDigit(s: string, hi: nat)
    requires 1 <= hi <= |s| && DigitsIn(s, 0, hi)
    ensures IsDigit(s[0]) && ValueIn(s, 0, hi) >= DigitValue(s[0])
    decreases hi
  {
    DigitAt(s, 0, hi, 0);
    if hi > 1 {
      LeadingDigit(s, hi - 1);
    }
  }

  /** Each part of a concatenation keeps its digits and their value. */
  lemma Appended(a: string, b: string)
    ensures DigitsIn(a, 0, |a|) == DigitsIn(a + b, 0, |a|)
    ensures DigitsIn(a, 0, |a|) ==> ValueIn(a, 0, |a|) == ValueIn(a + b, 0, |a|)
    ensures DigitsIn(b, 0, |b|) == DigitsIn(a + b, |a|, |a + b|)
    ensures DigitsIn(b, 0, |b|) ==> ValueIn(b, 0, |b|) == ValueIn(a + b, |a|, |a + b|)
  {
    var t := a + b;
    assert forall i :: 0 <= i < |a| ==> a[i] == t[i + 0];
    SameDigits(a, 0, |a|, t, 0);
    assert forall i :: 0 <= i < |b| ==> b[i] == t[i + |a|];
    SameDigits(b, 0, |b|, t, |a|);
  }

  /** `String(n)` for an integer `n`: the shortest spelling, with no leading
      zero and no '+', and a '-' exactly when `n` is negative. */
  function IntToString(n: int): (s: string)
    ensures |s| > 0
    ensures NumberOf(s) == Int(n)
    ensures n >= 0 ==> AllDigits(s) && (s[0] == '0' ==> |s| == 1)
    ensures n < 0 ==> |s| > 1 && s[0] == '-' && DigitsIn(s, 1, |s|) && s[1] != '0'
  {
    if n < 0 then
      var digits := NatToDigits(-n);
      Negated(digits);
      "-" + digits
    else NatToDigits(n)
  }

  /** A minus sign before a run of digits reads as the run's negation. */
  lemma Negated(digits: string)
    requires |digits| > 0 && AllDigits(digits)
    ensures NumberOf("-" + digits) == Int(0 - DigitsValue(digits))
    ensures DigitsIn("-" + digits, 1, |digits| + 1) && ("-" + digits)[1] == digits[0]
  {
    var s := "-" + digits;
    assert forall i :: 0 <= i < |digits| ==> digits[i] == s[i + 1];
    SameDigits(digits, 0, |digits|, s, 1);
    assert !AllDigits(s) by {
      if AllDigits(s) {
        DigitAt(s, 0, |s|, 0);
      }
    }
  }

  /** `Number(text)` for the text of a numeric field: the empty text is 0,
      an optionally signed run of decimal digits is its value, and anything
      else is NaN. */
  function NumberOf(s: string): (r: Numeric)
    ensures r.Int? && |s| > 0 ==> IsDigit(s[|s| - 1])
  {
    if |s| == 0 then Int(0)
    else if AllDigits(s) then Int(DigitsValue(s))
    else if |s| > 1 && (s[0] == '-' || s[0] == '+') && DigitsIn(s, 1, |s|) then
      Int(if s[0] == '-' then 0 - ValueIn(s, 1, |s|) else ValueIn(s, 1, |s|))
    else NaN
  }

  /** `k` zero digits. */
  function Zeros(k: nat): (z: string)
    ensures |z| == k && AllDigits(z) && DigitsValue(z) == 0
  {
    if k == 0 then []
    else
      Appended(Zeros(k - 1), ['0']);
      Zeros(k - 1) + ['0']
  }

  /** `s` left-padded with '0' to at least `width` characters. */
  function PadLeft(s: string, width: nat): (r: string)
    requires AllDigits(s)
    ensures AllDigits(r)
    ensures |r| == if |s| >= width then |s| else width
    ensures DigitsValue(r) == DigitsValue(s)
  {
    if |s| >= width then s
    else
      var z := Zeros(width - |s|);
      Appended(z, s);
      LeadingZeros(z + s, 0, |z|, |z + s|);
      z + s
  }

  /** Zero digits in front of a run of digits do not change its value. */
  lemma {:induction false} LeadingZeros(s: string, lo: nat, mid: nat, hi: nat)
    requires lo <= mid <= hi <= |s|
    requires DigitsIn(s, lo, mid) && ValueIn(s, lo, mid) == 0 && DigitsIn(s, mid, hi)
    ensures DigitsIn(s, lo, hi) && ValueIn(s, lo, hi) == ValueIn(s, mid, hi)
    decreases hi - mid
  {
    if mid < hi {
      LeadingZeros(s, lo, mid, hi - 1);
    }
  }

  /** A number below 10^k needs at most k digits (and always one). */
  lemma {:induction false} DigitsLength(n: nat, k: nat)
    requires n < Pow10(k)
    ensures |NatToDigits(n)| <= if k == 0 then 1 else k
    decreases n
  {
    if n >= 10 {
      DigitsLength(n / 10, k - 1);
    }
  }
}
