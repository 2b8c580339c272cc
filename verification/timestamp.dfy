/**
  The one timestamp shape a field version's `Modified` attribute carries,
  `YYYY-MM-DDTHH:MM:SSZ` (UTC), and its conversion to milliseconds since
  1970-01-01T00:00:00Z as JavaScript's `Date` computes it: proleptic
  Gregorian calendar, no leap seconds.
*/
module Timestamp {
  import opened Js

  datatype DateTime = DateTime(year: int, month: int, day: int, hour: int, minute: int, second: int)

  predicate IsLeapYear(y: int)
  {
    y % 4 == 0 && (y % 100 != 0 || y % 400 == 0)
  }

  function DaysInMonth(y: int, m: int): int
    requires 1 <= m <= 12
  {
    if m == 2 then (if IsLeapYear(y) then 29 else 28)
    else if m == 4 || m == 6 || m == 9 || m == 11 then 30
    else 31
  }

  predicate ValidDate(y: int, m: int, d: int)
  {
    1 <= m <= 12 && 1 <= d <= DaysInMonth(y, m)
  }

  /** A date and time the four-digit-year form can denote. */
  predicate Valid(t: DateTime)
  {
    && 0 <= t.year <= 9999
    && ValidDate(t.year, t.month, t.day)
    && 0 <= t.hour < 24 && 0 <= t.minute < 60 && 0 <= t.second < 60
  }

  /** Leap years among 1 .. y (counted with floor division, so the count
      also steps correctly through year 0 and below). */
  function LeapYearsThrough(y: int): int
  {
    y / 4 - y / 100 + y / 400
  }

  /** Days in the months of year `y` before month `m`. */
  function DaysBeforeMonth(y: int, m: int): int
    requires 1 <= m <= 12
  {
    var common := [0, 31, 59, 90, 120, 151, 181, 212, 243, 273, 304, 334][m - 1];
    if m > 2 && IsLeapYear(y) then common + 1 else common
  }

  /** Days from 1970-01-01 to the given civil date. */
  function DaysFromCivil(y: int, m: int, d: int): int
    requires 1 <= m <= 12
  {
    365 * (y - 1970) + (LeapYearsThrough(y - 1) - LeapYearsThrough(1969)) + DaysBeforeMonth(y, m) + (d - 1)
  }

  /** The calendar date after a valid date. */
  function NextDay(y: int, m: int, d: int): (r: (int, int, int))
    requires ValidDate(y, m, d)
    ensures ValidDate(r.0, r.1, r.2)
  {
    if d < DaysInMonth(y, m) then (y, m, d + 1)
    else if m < 12 then (y, m + 1, 1)
    else (y + 1, 1, 1)
  }

  /** Floor division by 4, 100 and 400 steps up by one exactly at the
      multiples. */
  lemma DivisionStep(y: int)
    ensures y / 4 - (y - 1) / 4 == if y % 4 == 0 then 1 else 0
    ensures y / 100 - (y - 1) / 100 == if y % 100 == 0 then 1 else 0
    ensures y / 400 - (y - 1) / 400 == if y % 400 == 0 then 1 else 0
  {
    var q4, r4 := (y - 1) / 4, (y - 1) % 4;
    assert y - 1 == 4 * q4 + r4 && 0 <= r4 < 4;
    var q100, r100 := (y - 1) / 100, (y - 1) % 100;
    assert y - 1 == 100 * q100 + r100 && 0 <= r100 < 100;
    var q400, r400 := (y - 1) / 400, (y - 1) % 400;
    assert y - 1 == 400 * q400 + r400 && 0 <= r400 < 400;
  }

  lemma CenturyIsLeapCandidate(y: int)
    requires y % 100 == 0
    ensures y % 4 == 0
  {
    var k := y / 100;
    assert y == 4 * (25 * k);
  }

  lemma FourCenturiesIsCentury(y: int)
    requires y % 400 == 0
    ensures y % 100 == 0
  {
    var k := y / 400;
    assert y == 100 * (4 * k);
  }

  /** One more leap year is counted exactly when the year is a leap year. */
  lemma LeapYearsStep(y: int)
    ensures LeapYearsThrough(y) - LeapYearsThrough(y - 1) == if IsLeapYear(y) then 1 else 0
  {
    DivisionStep(y);
    if y % 400 == 0 {
      FourCenturiesIsCentury(y);
      CenturyIsLeapCandidate(y);
    } else if y % 100 == 0 {
      CenturyIsLeapCandidate(y);
    }
  }

  /** The day count is a calendar: the day after a date is one day later. */
  lemma {:induction false} NextDayIsOneLater(y: int, m: int, d: int)
    requires ValidDate(y, m, d)
    ensures var (y', m', d') := NextDay(y, m, d); DaysFromCivil(y', m', d') == DaysFromCivil(y, m, d) + 1
  {
    if d < DaysInMonth(y, m) {
    } else if m < 12 {
      assert DaysBeforeMonth(y, m + 1) == DaysBeforeMonth(y, m) + DaysInMonth(y, m);
    } else {
      LeapYearsStep(y);
      assert DaysBeforeMonth(y, 12) + 31 == (if IsLeapYear(y) then 366 else 365);
    }
  }

  /** The count starts at the Unix epoch. */
  lemma EpochIsDayZero()
    ensures DaysFromCivil(1970, 1, 1) == 0
  {
  }

  /** Milliseconds since 1970-01-01T00:00:00Z. */
  function EpochMillis(t: DateTime): int
    requires ValidDate(t.year, t.month, t.day)
  {
    (((DaysFromCivil(t.year, t.month, t.day) * 24 + t.hour) * 60 + t.minute) * 60 + t.second) * 1000
  }

  predicate IsDigit(c: char)
  {
    '0' <= c <= '9'
  }

  function DigitValue(c: char): int
    requires IsDigit(c)
  {
    c as int - '0' as int
  }

  function DigitChar(n: int): char
    requires 0 <= n <= 9
  {
    ('0' as int + n) as char
  }

  /** The two-digit number at positions `i`, `i + 1` of `s`. */
  function TwoDigitsAt(s: string, i: int): int
    requires 0 <= i && i + 2 <= |s| && IsDigit(s[i]) && IsDigit(s[i + 1])
  {
    10 * DigitValue(s[i]) + DigitValue(s[i + 1])
  }

  /** The canonical text of a timestamp in the Z form. */
  function Format(t: DateTime): string
    requires Valid(t)
  {
    [ DigitChar(t.year / 1000), DigitChar(t.year / 100 % 10), DigitChar(t.year / 10 % 10), DigitChar(t.year % 10),
      '-', DigitChar(t.month / 10), DigitChar(t.month % 10),
      '-', DigitChar(t.day / 10), DigitChar(t.day % 10),
      'T', DigitChar(t.hour / 10), DigitChar(t.hour % 10),
      ':', DigitChar(t.minute / 10), DigitChar(t.minute % 10),
      ':', DigitChar(t.second / 10), DigitChar(t.second % 10),
      'Z' ]
  }

  /** The character positions of the Z form that hold digits. */
  predicate DigitPosition(k: int)
  {
    0 <= k < 19 && k != 4 && k != 7 && k != 10 && k != 13 && k != 16
  }

  /** `s` has the punctuation and digits of the Z form. */
  predicate ZShape(s: string)
  {
    && |s| == 20
    && s[4] == '-' && s[7] == '-' && s[10] == 'T' && s[13] == ':' && s[16] == ':' && s[19] == 'Z'
    && (forall k | 0 <= k < 19 && DigitPosition(k) :: IsDigit(s[k]))
  }

  /** The fields written in a text of the Z shape; they need not name an
      existing date. */
  function FieldsOf(s: string): DateTime
    requires ZShape(s)
  {
    DateTime(100 * TwoDigitsAt(s, 0) + TwoDigitsAt(s, 2), TwoDigitsAt(s, 5), TwoDigitsAt(s, 8),
             TwoDigitsAt(s, 11), TwoDigitsAt(s, 14), TwoDigitsAt(s, 17))
  }

  /** Reads a `YYYY-MM-DDTHH:MM:SSZ` timestamp; text of any other shape, or
      naming a date or time that does not exist, gives None. */
  function Parse(s: string): (r: Option<DateTime>)
    ensures r.Some? ==> Valid(r.value) && s == Format(r.value)
  {
    if !ZShape(s) then None
    else
      var t := FieldsOf(s);
      if Valid(t) then
        FormatReadsBack(s, t);
        Some(t)
      else None
  }

  lemma TwoDigits(a: int, b: int)
    requires 0 <= a <= 9 && 0 <= b <= 9
    ensures (10 * a + b) / 10 == a && (10 * a + b) % 10 == b
  {
  }

  /** The two digits at `i` spell the number they denote. */
  lemma DigitPairSpelled(s: string, i: int)
    requires 0 <= i && i + 2 <= |s| && IsDigit(s[i]) && IsDigit(s[i + 1])
    ensures DigitChar(TwoDigitsAt(s, i) / 10) == s[i] && DigitChar(TwoDigitsAt(s, i) % 10) == s[i + 1]
  {
    TwoDigits(DigitValue(s[i]), DigitValue(s[i + 1]));
  }

  /** The four digits of a year made of a century part and a two-digit rest. */
  lemma CenturyDigits(a: int, b: int)
    requires 0 <= a <= 99 && 0 <= b <= 99
    ensures var y := 100 * a + b;
      y / 1000 == a / 10 && y / 100 % 10 == a % 10 && y / 10 % 10 == b / 10 && y % 10 == b % 10
  {
    var y := 100 * a + b;
    assert y / 100 == a;
    assert y / 1000 == a / 10;
    assert y / 10 == 10 * a + b / 10;
  }

  /** Text of the Z shape whose fields form a valid timestamp is that
      timestamp's canonical text. */
  lemma FormatReadsBack(s: string, t: DateTime)
    requires ZShape(s) && Valid(t) && t == FieldsOf(s)
    ensures s == Format(t)
  {
    var f := Format(t);
    assert IsDigit(s[0]) && IsDigit(s[1]) && IsDigit(s[2]) && IsDigit(s[3]);
    DigitPairSpelled(s, 0);
    DigitPairSpelled(s, 2);
    CenturyDigits(TwoDigitsAt(s, 0), TwoDigitsAt(s, 2));
    assert IsDigit(s[5]) && IsDigit(s[6]) && IsDigit(s[8]) && IsDigit(s[9]);
    DigitPairSpelled(s, 5);
    DigitPairSpelled(s, 8);
    assert IsDigit(s[11]) && IsDigit(s[12]) && IsDigit(s[14]) && IsDigit(s[15]);
    DigitPairSpelled(s, 11);
    DigitPairSpelled(s, 14);
    assert IsDigit(s[17]) && IsDigit(s[18]);
    DigitPairSpelled(s, 17);
    assert forall k | 0 <= k < 20 :: s[k] == f[k];
  }

  lemma DigitRoundTrip(n: int)
    requires 0 <= n <= 9
    ensures IsDigit(DigitChar(n)) && DigitValue(DigitChar(n)) == n
  {
  }

  /** The first and last two digits of a four-digit year. */
  lemma YearHalves(y: int)
    requires 0 <= y <= 9999
    ensures 10 * (y / 1000) + y / 100 % 10 == y / 100
    ensures 10 * (y / 10 % 10) + y % 10 == y % 100
    ensures 100 * (y / 100) + y % 100 == y
  {
    var h := y / 100;
    assert y == 100 * h + y % 100;
    assert h / 10 == y / 1000;
    var l := y % 100;
    assert y / 10 == 10 * h + l / 10;
  }

  /** The canonical text has the Z shape and spells the timestamp's fields. */
  lemma FormatSpellsFields(t: DateTime)
    requires Valid(t)
    ensures ZShape(Format(t)) && FieldsOf(Format(t)) == t
  {
    var s := Format(t);
    var y := t.year;
    DigitRoundTrip(y / 1000);
    DigitRoundTrip(y / 100 % 10);
    DigitRoundTrip(y / 10 % 10);
    DigitRoundTrip(y % 10);
    DigitRoundTrip(t.month / 10);
    DigitRoundTrip(t.month % 10);
    DigitRoundTrip(t.day / 10);
    DigitRoundTrip(t.day % 10);
    DigitRoundTrip(t.hour / 10);
    DigitRoundTrip(t.hour % 10);
    DigitRoundTrip(t.minute / 10);
    DigitRoundTrip(t.minute % 10);
    DigitRoundTrip(t.second / 10);
    DigitRoundTrip(t.second % 10);
    assert ZShape(s);
    YearHalves(y);
    assert TwoDigitsAt(s, 0) == y / 100;
    assert TwoDigitsAt(s, 2) == y % 100;
  }

  /** Every valid timestamp reads back from its canonical text. */
  lemma ParseFormat(t: DateTime)
    requires Valid(t)
    ensures Parse(Format(t)) == Some(t)
  {
    FormatSpellsFields(t);
  }
}
