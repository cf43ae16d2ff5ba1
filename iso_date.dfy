/**
 * The published date of a post: app.js:38 keeps the first ten characters of
 * `Date.prototype.toISOString()`, whose form is `YYYY-MM-DDTHH:mm:ss.sssZ`
 * (the Date Time String Format of ECMA-262, always in UTC).
 */
module IsoDate {
  import opened Wrappers

  /** The UTC fields of a JavaScript `Date`. */
  datatype DateTime = DateTime(year: int, month: int, day: int,
                               hour: int, minute: int, second: int, millisecond: int)

  predicate IsLeapYear(year: int) {
    year % 4 == 0 && (year % 100 != 0 || year % 400 == 0)
  }

  function DaysInMonth(year: int, month: int): int
    requires 1 <= month <= 12
  {
    if month == 2 then (if IsLeapYear(year) then 29 else 28)
    else if month == 4 || month == 6 || month == 9 || month == 11 then 30
    else 31
  }

  /** A calendar date-time whose year has four digits. */
  predicate Valid(d: DateTime) {
    && 0 <= d.year <= 9999
    && 1 <= d.month <= 12
    && 1 <= d.day <= DaysInMonth(d.year, d.month)
    && 0 <= d.hour < 24
    && 0 <= d.minute < 60
    && 0 <= d.second < 60
    && 0 <= d.millisecond < 1000
  }

  type UtcDateTime = d: DateTime | Valid(d) witness DateTime(1970, 1, 1, 0, 0, 0, 0)

  function Pow10(n: nat): (p: nat)
    ensures p > 0
  {
    if n == 0 then 1 else 10 * Pow10(n - 1)
  }

  predicate IsDigit(c: char) {
    '0' <= c <= '9'
  }

  predicate AllDigits(s: string) {
    forall k :: 0 <= k < |s| ==> IsDigit(s[k])
  }

  function Digit(n: int): (c: char)
    requires 0 <= n < 10
    ensures IsDigit(c) && c as int - '0' as int == n
  {
    ('0' as int + n) as char
  }

  /** `n` in decimal, padded on the left with zeros to `width` digits. */
  function Pad(n: nat, width: nat): (r: string)
    requires n < Pow10(width)
    ensures |r| == width && AllDigits(r)
  {
    if width == 0 then [] else Pad(n / 10, width - 1) + [Digit(n % 10)]
  }

  /** The number a string of decimal digits denotes. */
  function DecimalValue(s: string): nat
    requires AllDigits(s)
  {
    if s == [] then 0
    else 10 * DecimalValue(s[..|s| - 1]) + (s[|s| - 1] as int - '0' as int)
  }

  /** Reading back a padded number gives the number. */
  lemma {:induction false} PadRoundTrip(n: nat, width: nat)
    requires n < Pow10(width)
    ensures DecimalValue(Pad(n, width)) == n
  {
    if width > 0 {
      var r := Pad(n, width);
      PadRoundTrip(n / 10, width - 1);
      assert r[..|r| - 1] == Pad(n / 10, width - 1);
    }
  }

  /** `YYYY-MM-DD`. */
  function DatePart(d: UtcDateTime): string {
    Pad(d.year, 4) + "-" + Pad(d.month, 2) + "-" + Pad(d.day, 2)
  }

  /** `HH:mm:ss.sss`. */
  function TimePart(d: UtcDateTime): string {
    Pad(d.hour, 2) + ":" + Pad(d.minute, 2) + ":" + Pad(d.second, 2) + "." + Pad(d.millisecond, 3)
  }

  /** `Date.prototype.toISOString`. */
  function ToIsoString(d: UtcDateTime): (r: string)
    ensures |r| == 24
    ensures r[4] == '-' && r[7] == '-' && r[10] == 'T'
    ensures r[13] == ':' && r[16] == ':' && r[19] == '.' && r[23] == 'Z'
  {
    DatePart(d) + "T" + TimePart(d) + "Z"
  }

  function Min(a: int, b: int): int {
    if a <= b then a else b
  }

  /** JavaScript `s.substr(start, length)` for non-negative arguments. */
  function Substr(s: string, start: nat, length: nat): (r: string)
    ensures |r| == if start >= |s| then 0 else Min(length, |s| - start)
    ensures start < |s| ==> r == s[start..start + |r|]
  {
    if start >= |s| then []
    else if start + length >= |s| then s[start..]
    else s[start..start + length]
  }

  /** app.js:38: the published date put into the page. */
  function PublishedDate(d: UtcDateTime): (r: string)
    ensures |r| == 10 && r[4] == '-' && r[7] == '-'
    ensures forall k :: 0 <= k < 10 && k != 4 && k != 7 ==> IsDigit(r[k])
  {
    PublishedDateIsDatePart(d);
    Substr(ToIsoString(d), 0, 10)
  }

  /** The first ten characters of the ISO string are exactly the padded date fields. */
  lemma PublishedDateIsDatePart(d: UtcDateTime)
    ensures Substr(ToIsoString(d), 0, 10) == ToIsoString(d)[..10] == DatePart(d)
  {
    var iso := ToIsoString(d);
    assert iso == DatePart(d) + ("T" + TimePart(d) + "Z");
    assert |DatePart(d)| == 10;
  }

  /** The time of day does not reach the published date. */
  lemma PublishedDateIgnoresTime(d1: UtcDateTime, d2: UtcDateTime)
    requires d1.year == d2.year && d1.month == d2.month && d1.day == d2.day
    ensures PublishedDate(d1) == PublishedDate(d2)
  {
    PublishedDateIsDatePart(d1);
    PublishedDateIsDatePart(d2);
  }

  /** Reads a `YYYY-MM-DD` string back into year, month and day. */
  function ParseDate(s: string): Option<(int, int, int)> {
    if |s| == 10 && s[4] == '-' && s[7] == '-'
       && AllDigits(s[..4]) && AllDigits(s[5..7]) && AllDigits(s[8..])
    then Some((DecimalValue(s[..4]), DecimalValue(s[5..7]), DecimalValue(s[8..])))
    else None
  }

  /** The published date determines the calendar day it was made from. */
  lemma PublishedDateRoundTrip(d: UtcDateTime)
    ensures ParseDate(PublishedDate(d)) == Some((d.year, d.month, d.day))
  {
    var r := PublishedDate(d);
    PublishedDateIsDatePart(d);
    assert r[..4] == Pad(d.year, 4);
    assert r[5..7] == Pad(d.month, 2);
    assert r[8..] == Pad(d.day, 2);
    PadRoundTrip(d.year, 4);
    PadRoundTrip(d.month, 2);
    PadRoundTrip(d.day, 2);
  }

  /** Two instants share a published date exactly when they fall on the same UTC day. */
  lemma PublishedDateSameDay(d1: UtcDateTime, d2: UtcDateTime)
    ensures PublishedDate(d1) == PublishedDate(d2)
        <==> d1.year == d2.year && d1.month == d2.month && d1.day == d2.day
  {
    PublishedDateRoundTrip(d1);
    PublishedDateRoundTrip(d2);
    if d1.year == d2.year && d1.month == d2.month && d1.day == d2.day {
      PublishedDateIgnoresTime(d1, d2);
    }
  }

  /** One millisecond before midnight is still the same day. */
  lemma PublishedDateExample()
    ensures PublishedDate(DateTime(2021, 3, 7, 23, 59, 59, 999)) == "2021-03-07"
  {
    var d: UtcDateTime := DateTime(2021, 3, 7, 23, 59, 59, 999);
    PublishedDateIsDatePart(d);
    assert Pad(2021, 4) == "2021";
    assert Pad(3, 2) == "03";
    assert Pad(7, 2) == "07";
  }
}
