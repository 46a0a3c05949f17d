/** Calendar values and their text forms: Qt's `yyyy-MM-dd` for the custody
    date, strftime's `%Y%m%d` for the form's file name and
    `%Y-%m-%d %H:%M:%S` for the creation stamp. Strict parsers are given as
    the inverses of the formatters. */
module Dates {
  import opened Wrappers

  datatype Date = Date(year: int, month: int, day: int)

  datatype DateTime = DateTime(date: Date, hour: int, minute: int, second: int)

  predicate IsLeapYear(y: int) {
    (y % 4 == 0 && y % 100 != 0) || y % 400 == 0
  }

  function DaysInMonth(y: int, m: int): int
    requires 1 <= m <= 12
  {
    if m == 2 then (if IsLeapYear(y) then 29 else 28)
    else if m == 4 || m == 6 || m == 9 || m == 11 then 30
    else 31
  }

  /** A calendar date with a four-digit year. */
  predicate ValidDate(d: Date) {
    && 1000 <= d.year <= 9999
    && 1 <= d.month <= 12
    && 1 <= d.day <= DaysInMonth(d.year, d.month)
  }

  predicate ValidDateTime(t: DateTime) {
    && ValidDate(t.date)
    && 0 <= t.hour < 24
    && 0 <= t.minute < 60
    && 0 <= t.second < 60
  }

  function Pow10(n: nat): (r: nat)
    ensures r >= 1
  {
    if n == 0 then 1 else 10 * Pow10(n - 1)
  }

  predicate IsDigit(c: char) {
    '0' <= c <= '9'
  }

  predicate AllDigits(s: string) {
    forall i :: 0 <= i < |s| ==> IsDigit(s[i])
  }

  /** `n` written in decimal, zero-padded to exactly `width` digits. */
  function Digits(n: nat, width: nat): (r: string)
    requires n < Pow10(width)
    ensures |r| == width && AllDigits(r)
  {
    if width == 0 then ""
    else Digits(n / 10, width - 1) + [('0' as int + n % 10) as char]
  }

  /** The number a string of decimal digits denotes. */
  function Value(s: string): (v: nat)
    requires AllDigits(s)
    ensures v < Pow10(|s|)
  {
    if s == [] then 0
    else
      var front := Value(s[..|s| - 1]);
      var d := s[|s| - 1] as int - '0' as int;
      assert front * 10 + d < Pow10(|s| - 1) * 10 by {
        assert front + 1 <= Pow10(|s| - 1);
        assert (front + 1) * 10 <= Pow10(|s| - 1) * 10;
      }
      front * 10 + d
  }

  lemma DivMod10(q: nat, d: int)
    requires 0 <= d < 10
    ensures (q * 10 + d) / 10 == q && (q * 10 + d) % 10 == d
  {
  }

  /** Reading back a padded number gives the number. */
  lemma {:induction false} ValueOfDigits(n: nat, width: nat)
    requires n < Pow10(width)
    ensures Value(Digits(n, width)) == n
  {
    if width > 0 {
      var s := Digits(n, width);
      assert s[..width - 1] == Digits(n / 10, width - 1);
      ValueOfDigits(n / 10, width - 1);
    }
  }

  /** Padding the value of a digit string gives the string back. */
  lemma {:induction false} DigitsOfValue(s: string)
    requires AllDigits(s)
    ensures Digits(Value(s), |s|) == s
  {
    if s != [] {
      var front := s[..|s| - 1];
      DigitsOfValue(front);
      var d := s[|s| - 1] as int - '0' as int;
      DivMod10(Value(front), d);
      assert Digits(Value(s), |s|) == Digits(Value(front), |s| - 1) + [('0' as int + d) as char];
      assert s == front + [s[|s| - 1]];
    }
  }

  /** Qt's `QDate::toString("yyyy-MM-dd")`. */
  function IsoDate(d: Date): (r: string)
    requires ValidDate(d)
    ensures |r| == 10 && r[4] == '-' && r[7] == '-'
    ensures AllDigits(r[..4]) && AllDigits(r[5..7]) && AllDigits(r[8..])
  {
    var r := Digits(d.year, 4) + "-" + Digits(d.month, 2) + "-" + Digits(d.day, 2);
    assert r[..4] == Digits(d.year, 4);
    assert r[5..7] == Digits(d.month, 2);
    assert r[8..] == Digits(d.day, 2);
    r
  }

  /** strftime's `%Y%m%d`. */
  function CompactDate(d: Date): (r: string)
    requires ValidDate(d)
    ensures |r| == 8 && AllDigits(r)
  {
    Digits(d.year, 4) + Digits(d.month, 2) + Digits(d.day, 2)
  }

  /** strftime's `%Y-%m-%d %H:%M:%S`. */
  function Timestamp(t: DateTime): (r: string)
    requires ValidDateTime(t)
    ensures |r| == 19 && r[10] == ' ' && r[13] == ':' && r[16] == ':'
    ensures AllDigits(r[11..13]) && AllDigits(r[14..16]) && AllDigits(r[17..])
  {
    var r := IsoDate(t.date) + " " + Digits(t.hour, 2) + ":" + Digits(t.minute, 2) + ":" + Digits(t.second, 2);
    assert r[11..13] == Digits(t.hour, 2);
    assert r[14..16] == Digits(t.minute, 2);
    assert r[17..] == Digits(t.second, 2);
    r
  }

  /** Strict reader of `yyyy-MM-dd`: exactly ten characters, digits and
      dashes in place, and a real date. */
  function ParseIsoDate(s: string): (r: Option<Date>)
    ensures r.Some? ==> ValidDate(r.value) && IsoDate(r.value) == s
  {
    if |s| == 10 && s[4] == '-' && s[7] == '-'
       && AllDigits(s[..4]) && AllDigits(s[5..7]) && AllDigits(s[8..])
    then
      var d := Date(Value(s[..4]), Value(s[5..7]), Value(s[8..]));
      if ValidDate(d) then
        DigitsOfValue(s[..4]);
        DigitsOfValue(s[5..7]);
        DigitsOfValue(s[8..]);
        assert s == s[..4] + "-" + s[5..7] + "-" + s[8..];
        Some(d)
      else None
    else None
  }

  /** Strict reader of `%Y%m%d`. */
  function ParseCompactDate(s: string): (r: Option<Date>)
    ensures r.Some? ==> ValidDate(r.value) && CompactDate(r.value) == s
  {
    if |s| == 8 && AllDigits(s) then
      var d := Date(Value(s[..4]), Value(s[4..6]), Value(s[6..]));
      if ValidDate(d) then
        DigitsOfValue(s[..4]);
        DigitsOfValue(s[4..6]);
        DigitsOfValue(s[6..]);
        assert s == s[..4] + s[4..6] + s[6..];
        Some(d)
      else None
    else None
  }

  /** The stored custody date reads back as the date that was entered. */
  lemma IsoDateRoundTrip(d: Date)
    requires ValidDate(d)
    ensures ParseIsoDate(IsoDate(d)) == Some(d)
  {
    var s := IsoDate(d);
    assert s[..4] == Digits(d.year, 4);
    assert s[5..7] == Digits(d.month, 2);
    assert s[8..] == Digits(d.day, 2);
    ValueOfDigits(d.year, 4);
    ValueOfDigits(d.month, 2);
    ValueOfDigits(d.day, 2);
  }

  /** The date part of a file name reads back as the generation date. */
  lemma CompactDateRoundTrip(d: Date)
    requires ValidDate(d)
    ensures ParseCompactDate(CompactDate(d)) == Some(d)
  {
    var s := CompactDate(d);
    assert s[..4] == Digits(d.year, 4);
    assert s[4..6] == Digits(d.month, 2);
    assert s[6..] == Digits(d.day, 2);
    ValueOfDigits(d.year, 4);
    ValueOfDigits(d.month, 2);
    ValueOfDigits(d.day, 2);
  }

  /** The creation stamp reads back as the creation time: the date in
      `yyyy-MM-dd`, then hour, minute and second. */
  lemma TimestampRoundTrip(t: DateTime)
    requires ValidDateTime(t)
    ensures ParseIsoDate(Timestamp(t)[..10]) == Some(t.date)
    ensures Value(Timestamp(t)[11..13]) == t.hour
    ensures Value(Timestamp(t)[14..16]) == t.minute
    ensures Value(Timestamp(t)[17..]) == t.second
  {
    var r := Timestamp(t);
    assert r[..10] == IsoDate(t.date);
    IsoDateRoundTrip(t.date);
    assert r[11..13] == Digits(t.hour, 2);
    assert r[14..16] == Digits(t.minute, 2);
    assert r[17..] == Digits(t.second, 2);
    ValueOfDigits(t.hour, 2);
    ValueOfDigits(t.minute, 2);
    ValueOfDigits(t.second, 2);
  }
}
