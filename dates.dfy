/**
 * Calendar-valid `YYYY-MM-DD` dates and `YYYY-MM-DD HH:MM:SS` date-times
 * of the proleptic Gregorian calendar: the texts accepted for MySQL
 * `date` and `datetime` columns besides the all-zero sentinels.
 */
module Dates {
  import opened Numbers

  predicate IsLeapYear(y: int) {
    y % 4 == 0 && (y % 100 != 0 || y % 400 == 0)
  }

  function DaysInMonth(y: int, m: int): (d: nat)
    requires 1 <= m <= 12
    ensures 28 <= d <= 31
    ensures d == 29 <==> m == 2 && IsLeapYear(y)
  {
    if m == 2 then (if IsLeapYear(y) then 29 else 28)
    else if m == 4 || m == 6 || m == 9 || m == 11 then 30
    else 31
  }

  /** `n` digits of `s` starting at `i`, read as a decimal number. */
  function Field(s: string, i: nat, n: nat): nat
    requires i + n <= |s| && AllDigits(s[i..i + n])
  {
    DecimalValue(s[i..i + n])
  }

  predicate IsValidDate(y: int, m: int, d: int) {
    1 <= m <= 12 && 1 <= d <= DaysInMonth(y, m)
  }

  /** Four-digit year, two-digit month and day, separated by `-`, naming a real day. */
  predicate IsDateText(s: string)
    ensures IsDateText(s) ==>
      && |s| == 10 && s[4] == '-' && s[7] == '-' && AllDigits(s[5..7]) && AllDigits(s[8..10])
      && 1 <= Field(s, 5, 2) <= 12 && 1 <= Field(s, 8, 2) <= 31
      && (Field(s, 5, 2) == 2 ==> Field(s, 8, 2) <= 29)
  {
    && |s| == 10
    && AllDigits(s[0..4]) && s[4] == '-' && AllDigits(s[5..7]) && s[7] == '-' && AllDigits(s[8..10])
    && IsValidDate(Field(s, 0, 4), Field(s, 5, 2), Field(s, 8, 2))
  }

  /** A date text, a space, and a two-digit hour, minute and second separated by `:`. */
  predicate IsDateTimeText(s: string)
    ensures IsDateTimeText(s) ==>
      && |s| == 19 && IsDateText(s[..10])
      && AllDigits(s[11..13]) && AllDigits(s[14..16]) && AllDigits(s[17..19])
      && Field(s, 11, 2) * 3600 + Field(s, 14, 2) * 60 + Field(s, 17, 2) < 86400
  {
    && |s| == 19
    && IsDateText(s[..10]) && s[10] == ' '
    && AllDigits(s[11..13]) && s[13] == ':' && AllDigits(s[14..16]) && s[16] == ':' && AllDigits(s[17..19])
    && Field(s, 11, 2) <= 23 && Field(s, 14, 2) <= 59 && Field(s, 17, 2) <= 59
  }

  /** `n` written with exactly `w` digits, zero-padded on the left. */
  function Padded(n: nat, w: nat): (s: string)
    requires n < Pow10(w)
    ensures |s| == w && AllDigits(s)
    ensures DecimalValue(s) == n
  {
    if w == 0 then []
    else
      var s := Padded(n / 10, w - 1) + [DigitChar(n % 10)];
      assert s[..|s| - 1] == Padded(n / 10, w - 1);
      s
  }

  function RenderDate(y: nat, m: nat, d: nat): string
    requires y < 10000 && m < 100 && d < 100
  {
    Padded(y, 4) + "-" + Padded(m, 2) + "-" + Padded(d, 2)
  }

  function RenderDateTime(y: nat, mo: nat, d: nat, h: nat, mi: nat, s: nat): string
    requires y < 10000 && mo < 100 && d < 100 && h < 100 && mi < 100 && s < 100
  {
    RenderDate(y, mo, d) + " " + Padded(h, 2) + ":" + Padded(mi, 2) + ":" + Padded(s, 2)
  }

  /** A rendered date is date text exactly when it names a real day, and it reads back to its fields. */
  lemma {:induction false} DateRoundTrip(y: nat, m: nat, d: nat)
    requires y < 10000 && m < 100 && d < 100
    ensures var s := RenderDate(y, m, d);
      |s| == 10 && AllDigits(s[0..4]) && AllDigits(s[5..7]) && AllDigits(s[8..10])
      && Field(s, 0, 4) == y && Field(s, 5, 2) == m && Field(s, 8, 2) == d
    ensures IsDateText(RenderDate(y, m, d)) <==> IsValidDate(y, m, d)
  {
    var s := RenderDate(y, m, d);
    assert s[0..4] == Padded(y, 4);
    assert s[5..7] == Padded(m, 2);
    assert s[8..10] == Padded(d, 2);
  }

  /** Every date text is the rendering of the day it names. */
  lemma {:induction false} DateTextIsRendered(s: string)
    requires IsDateText(s)
    ensures Field(s, 0, 4) < 10000
    ensures s == RenderDate(Field(s, 0, 4), Field(s, 5, 2), Field(s, 8, 2))
  {
    PaddedOfDigits(s[0..4]);
    PaddedOfDigits(s[5..7]);
    PaddedOfDigits(s[8..10]);
    assert s == s[0..4] + "-" + s[5..7] + "-" + s[8..10];
  }

  /** A digit string is the padded rendering of its own value. */
  lemma {:induction false} PaddedOfDigits(s: string)
    requires AllDigits(s)
    ensures DecimalValue(s) < Pow10(|s|)
    ensures Padded(DecimalValue(s), |s|) == s
  {
    if |s| > 0 {
      var p := s[..|s| - 1];
      PaddedOfDigits(p);
      var last := DigitValue(s[|s| - 1]);
      var v := DecimalValue(s);
      assert v == 10 * DecimalValue(p) + last;
      assert v / 10 == DecimalValue(p) && v % 10 == last;
      assert DigitChar(last) == s[|s| - 1];
      assert s == p + [s[|s| - 1]];
    }
  }

  /** February 29th is a date exactly in leap years. */
  lemma LeapDay(y: nat)
    requires y < 10000
    ensures IsDateText(RenderDate(y, 2, 29)) <==> IsLeapYear(y)
  {
    DateRoundTrip(y, 2, 29);
  }

  /** A rendered date-time is date-time text exactly when its date is real and its clock fields are in range. */
  lemma {:induction false} DateTimeRoundTrip(y: nat, mo: nat, d: nat, h: nat, mi: nat, sec: nat)
    requires y < 10000 && mo < 100 && d < 100 && h < 100 && mi < 100 && sec < 100
    ensures IsDateTimeText(RenderDateTime(y, mo, d, h, mi, sec))
      <==> IsValidDate(y, mo, d) && h <= 23 && mi <= 59 && sec <= 59
  {
    var s := RenderDateTime(y, mo, d, h, mi, sec);
    DateRoundTrip(y, mo, d);
    assert s[..10] == RenderDate(y, mo, d);
    assert s[11..13] == Padded(h, 2);
    assert s[14..16] == Padded(mi, 2);
    assert s[17..19] == Padded(sec, 2);
  }

  lemma Padded2024()
    ensures Padded(2024, 4) == "2024"
  {
  }

  /** 2024 is a leap year, so 2024-02-29 is a date. */
  lemma LeapDayExample()
    ensures IsDateText("2024-02-29")
  {
    DateRoundTrip(2024, 2, 29);
    Padded2024();
    assert Padded(2, 2) == "02";
    assert Padded(2, 1) == "2";
    assert Padded(29, 2) == "29";
    assert RenderDate(2024, 2, 29) == "2024-02-29";
  }

  /** February 2024 has no 30th day. */
  lemma NoThirtiethOfFebruary()
    ensures !IsDateText("2024-02-30")
  {
    DateRoundTrip(2024, 2, 30);
    Padded2024();
    assert Padded(2, 2) == "02";
    assert Padded(3, 1) == "3";
    assert Padded(30, 2) == "30";
    assert RenderDate(2024, 2, 30) == "2024-02-30";
  }
}
