/**
 * The calendar-date part of .NET `DateTime`, its chronological order, and the
 * `"dd MM yyyy"` rendering the person search matches against.
 */
module Dates {
  import opened Optional

  datatype DateParts = DateParts(year: int, month: int, day: int)

  predicate IsLeapYear(year: int) {
    year % 4 == 0 && (year % 100 != 0 || year % 400 == 0)
  }

  function DaysInMonth(year: int, month: int): (n: int)
    requires 1 <= month <= 12
    ensures 28 <= n <= 31
    ensures n == 29 <==> month == 2 && IsLeapYear(year)
  {
    if month == 2 then (if IsLeapYear(year) then 29 else 28)
    else if month == 4 || month == 6 || month == 9 || month == 11 then 30
    else 31
  }

  /** The range `DateTime` can represent: years 1 to 9999. */
  predicate IsCalendarDate(d: DateParts) {
    && 1 <= d.year <= 9999
    && 1 <= d.month <= 12
    && 1 <= d.day <= DaysInMonth(d.year, d.month)
  }

  type Date = d: DateParts | IsCalendarDate(d) witness DateParts(1, 1, 1)

  /** Chronological order (the default comparer of `DateTime`). */
  predicate OnOrBefore(a: Date, b: Date) {
    a.year < b.year
    || (a.year == b.year && (a.month < b.month || (a.month == b.month && a.day <= b.day)))
  }

  function Digit(n: int): (c: char)
    requires 0 <= n <= 9
    ensures '0' <= c <= '9'
  {
    ('0' as int + n) as char
  }

  function DigitValue(c: char): (n: int)
    requires '0' <= c <= '9'
    ensures 0 <= n <= 9 && Digit(n) == c
  {
    c as int - '0' as int
  }

  /** `n` written with exactly `width` decimal digits, zero-padded on the left. */
  function Padded(n: nat, width: nat): (s: string)
    requires n < Pow10(width)
    ensures |s| == width
    ensures forall i :: 0 <= i < |s| ==> '0' <= s[i] <= '9'
  {
    if width == 0 then "" else Padded(n / 10, width - 1) + [Digit(n % 10)]
  }

  function Pow10(k: nat): (p: nat)
    ensures p >= 1
  {
    if k == 0 then 1 else 10 * Pow10(k - 1)
  }

  /** The number a string of decimal digits denotes. */
  function DigitsValue(s: string): nat
    requires forall i :: 0 <= i < |s| ==> '0' <= s[i] <= '9'
  {
    if s == [] then 0 else 10 * DigitsValue(s[..|s| - 1]) + DigitValue(s[|s| - 1])
  }

  lemma {:induction false} PaddedValue(n: nat, width: nat)
    requires n < Pow10(width)
    ensures DigitsValue(Padded(n, width)) == n
  {
    if width > 0 {
      var s := Padded(n, width);
      PaddedValue(n / 10, width - 1);
      assert s[..|s| - 1] == Padded(n / 10, width - 1);
    }
  }

  /** `date.ToString("dd MM yyyy")` under a culture whose calendar is the Gregorian one. */
  function FormatDdMmYyyy(d: Date): (s: string)
    ensures |s| == 10 && s[2] == ' ' && s[5] == ' '
    ensures forall i :: 0 <= i < 10 && i != 2 && i != 5 ==> '0' <= s[i] <= '9'
  {
    Padded(d.day, 2) + " " + Padded(d.month, 2) + " " + Padded(d.year, 4)
  }

  predicate IsDigits(s: string) {
    forall i :: 0 <= i < |s| ==> '0' <= s[i] <= '9'
  }

  /** Reads a `"dd MM yyyy"` rendering back; `None` for anything else. */
  function ParseDdMmYyyy(s: string): (r: Option<Date>)
    ensures r.Some? ==> |s| == 10
  {
    if |s| == 10 && s[2] == ' ' && s[5] == ' '
       && IsDigits(s[0..2]) && IsDigits(s[3..5]) && IsDigits(s[6..10])
    then
      var d := DateParts(DigitsValue(s[6..10]), DigitsValue(s[3..5]), DigitsValue(s[0..2]));
      if IsCalendarDate(d) then Some(d) else None
    else None
  }

  /** The rendering loses nothing: every date reads back from its text, so two dates with the same text are equal. */
  lemma FormatParsesBack(d: Date)
    ensures ParseDdMmYyyy(FormatDdMmYyyy(d)) == Some(d)
  {
    var s := FormatDdMmYyyy(d);
    assert s[0..2] == Padded(d.day, 2);
    assert s[3..5] == Padded(d.month, 2);
    assert s[6..10] == Padded(d.year, 4);
    PaddedValue(d.day, 2);
    PaddedValue(d.month, 2);
    PaddedValue(d.year, 4);
  }

  lemma FormatInjective(a: Date, b: Date)
    requires FormatDdMmYyyy(a) == FormatDdMmYyyy(b)
    ensures a == b
  {
    FormatParsesBack(a);
    FormatParsesBack(b);
  }
}
