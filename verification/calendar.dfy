/**
 * The in-game clock of src/engine/world/world.ts: a wall-clock time held as
 * the string `YYYY-MM-DD HH:mm:ss`, read back through the ECMAScript
 * date-time string format and advanced on the proleptic Gregorian calendar.
 */
module Calendar {
  import opened Wrappers

  datatype DateTime = DateTime(year: int, month: int, day: int, hour: int, minute: int, second: int)

  predicate IsLeap(y: int) {
    y % 4 == 0 && (y % 100 != 0 || y % 400 == 0)
  }

  function YearLength(y: int): int {
    if IsLeap(y) then 366 else 365
  }

  function MonthLength(y: int, m: int): (r: int)
    requires 1 <= m <= 12
    ensures 28 <= r <= 31
  {
    if m == 2 then (if IsLeap(y) then 29 else 28)
    else if m == 4 || m == 6 || m == 9 || m == 11 then 30
    else 31
  }

  /** Every field in range: a time the clock can show. */
  predicate Valid(d: DateTime) {
    1 <= d.month <= 12 && 1 <= d.day <= MonthLength(d.year, d.month) &&
    0 <= d.hour < 24 && 0 <= d.minute < 60 && 0 <= d.second < 60
  }

  /** Days in the months of year `y` before month `m` (`m` = 13 gives the whole year). */
  function DaysBeforeMonth(y: int, m: int): int
    requires 1 <= m <= 13
  {
    var table := [0, 31, 59, 90, 120, 151, 181, 212, 243, 273, 304, 334, 365];
    table[m - 1] + (if IsLeap(y) && m > 2 then 1 else 0)
  }

  lemma MonthStep(y: int, m: int)
    requires 1 <= m <= 12
    ensures DaysBeforeMonth(y, m + 1) == DaysBeforeMonth(y, m) + MonthLength(y, m)
    ensures DaysBeforeMonth(y, 13) == YearLength(y)
  {
  }

  /** Days from 1 January of year 0 to 1 January of year `y` (negative before year 0). */
  function DaysBeforeYear(y: int): int
    decreases if y >= 0 then y else -y
  {
    if y == 0 then 0
    else if y > 0 then DaysBeforeYear(y - 1) + YearLength(y - 1)
    else DaysBeforeYear(y + 1) - YearLength(y)
  }

  lemma YearStep(y: int)
    ensures DaysBeforeYear(y + 1) == DaysBeforeYear(y) + YearLength(y)
  {
  }

  function DayNumber(y: int, m: int, d: int): int
    requires 1 <= m <= 12
  {
    DaysBeforeYear(y) + DaysBeforeMonth(y, m) + d - 1
  }

  /** Seconds since 0000-01-01 00:00:00: the clock's absolute reading. */
  function Seconds(d: DateTime): int
    requires 1 <= d.month <= 12
  {
    DayNumber(d.year, d.month, d.day) * 86400 + d.hour * 3600 + d.minute * 60 + d.second
  }

  datatype Date = Date(year: int, month: int, day: int)

  predicate ValidDate(d: Date) {
    1 <= d.month <= 12 && 1 <= d.day <= MonthLength(d.year, d.month)
  }

  function DateNumber(d: Date): int
    requires 1 <= d.month <= 12
  {
    DayNumber(d.year, d.month, d.day)
  }

  /** The date `k` days after `d`, walking month by month. */
  function AddDays(d: Date, k: nat): (r: Date)
    requires ValidDate(d)
    ensures ValidDate(r)
    decreases k
  {
    var len := MonthLength(d.year, d.month);
    if d.day + k <= len then d.(day := d.day + k)
    else if d.month == 12 then AddDays(Date(d.year + 1, 1, 1), k - (len - d.day + 1))
    else AddDays(Date(d.year, d.month + 1, 1), k - (len - d.day + 1))
  }

  /** `AddDays` moves the day number by exactly `k`. */
  lemma {:induction false} AddDaysCounts(d: Date, k: nat)
    requires ValidDate(d)
    ensures DateNumber(AddDays(d, k)) == DateNumber(d) + k
    decreases k
  {
    var len := MonthLength(d.year, d.month);
    if d.day + k > len {
      MonthStep(d.year, d.month);
      if d.month == 12 {
        YearStep(d.year);
        AddDaysCounts(Date(d.year + 1, 1, 1), k - (len - d.day + 1));
      } else {
        AddDaysCounts(Date(d.year, d.month + 1, 1), k - (len - d.day + 1));
      }
    }
  }

  /**
   * `date.setSeconds(date.getSeconds() + n)`: the carry runs through
   * minutes, hours and days; the result is a valid time exactly `n`
   * seconds later.
   */
  function AddSeconds(d: DateTime, n: nat): (r: DateTime)
    requires Valid(d)
    ensures Valid(r)
    ensures Seconds(r) == Seconds(d) + n
  {
    var s := d.second + n;
    var mi := d.minute + s / 60;
    var h := d.hour + mi / 60;
    var date := AddDays(Date(d.year, d.month, d.day), h / 24);
    var r := DateTime(date.year, date.month, date.day, h % 24, mi % 60, s % 60);
    AddDaysCounts(Date(d.year, d.month, d.day), h / 24);
    CarrySeconds(DateNumber(Date(d.year, d.month, d.day)), d.hour, d.minute, d.second, n);
    r
  }

  /** The carry arithmetic of `AddSeconds`. */
  lemma CarrySeconds(day: int, hour: int, minute: int, second: int, n: nat)
    requires 0 <= hour && 0 <= minute && 0 <= second
    ensures var s := second + n;
            var mi := minute + s / 60;
            var h := hour + mi / 60;
            (day + h / 24) * 86400 + (h % 24) * 3600 + (mi % 60) * 60 + s % 60 ==
              day * 86400 + hour * 3600 + minute * 60 + second + n
  {
    var s := second + n;
    var mi := minute + s / 60;
    var h := hour + mi / 60;
    assert s == (s / 60) * 60 + s % 60;
    assert mi == (mi / 60) * 60 + mi % 60;
    assert h == (h / 24) * 24 + h % 24;
  }

  /** A full day later the clock shows the same hour, minute and second. */
  lemma NextDaySameTime(d: DateTime)
    requires Valid(d)
    ensures var r := AddSeconds(d, 86400);
            r.hour == d.hour && r.minute == d.minute && r.second == d.second
  {
    var s := d.second + 86400;
    assert s / 60 == 1440 && s % 60 == d.second;
    var mi := d.minute + 1440;
    assert mi / 60 == 24 && mi % 60 == d.minute;
    var h := d.hour + 24;
    assert h % 24 == d.hour;
  }

  function DigitChar(n: int): (c: char)
    requires 0 <= n <= 9
    ensures '0' <= c <= '9'
  {
    (n + '0' as int) as char
  }

  predicate IsDigit(c: char) { '0' <= c <= '9' }

  function DigitValue(c: char): (n: int)
    requires IsDigit(c)
    ensures 0 <= n <= 9
  {
    c as int - '0' as int
  }

  /** `n.toString()` for a non-negative integer. */
  function Decimal(n: nat): (s: string)
    ensures |s| >= 1 && forall i :: 0 <= i < |s| ==> IsDigit(s[i])
  {
    if n < 10 then [DigitChar(n)] else Decimal(n / 10) + [DigitChar(n % 10)]
  }

  /** `getFullYear().toString()`: no padding, a minus sign before year 0. */
  function YearString(y: int): string {
    if y >= 0 then Decimal(y) else "-" + Decimal(-y)
  }

  /** `pad`: `toString().padStart(2, '0')`. */
  function Pad2(n: nat): (s: string)
    ensures n < 100 ==> s == [DigitChar(n / 10), DigitChar(n % 10)]
  {
    var s := Decimal(n);
    if n < 10 then "0" + s
    else
      assert n < 100 ==> Decimal(n / 10) == [DigitChar(n / 10)];
      if |s| < 2 then "0" + s else s
  }

  /** The clock string `YYYY-MM-DD HH:mm:ss`. */
  function Format(d: DateTime): string
    requires Valid(d)
  {
    YearString(d.year) + "-" + Pad2(d.month) + "-" + Pad2(d.day) + " " +
    Pad2(d.hour) + ":" + Pad2(d.minute) + ":" + Pad2(d.second)
  }

  /** What the clock string becomes when the date is invalid (`NaN` in every field). */
  const InvalidDateString: string := "NaN-NaN-NaN NaN:NaN:NaN"

  /** The value of the digits `s[i..i+n]`. */
  function DigitsValue(s: string, i: nat, n: nat): (v: nat)
    requires i + n <= |s| && forall k :: i <= k < i + n ==> IsDigit(s[k])
    decreases n
  {
    if n == 0 then 0 else DigitsValue(s, i, n - 1) * 10 + DigitValue(s[i + n - 1])
  }

  predicate DigitsAt(s: string, i: nat, n: nat)
    requires i + n <= |s|
  {
    forall k :: i <= k < i + n ==> IsDigit(s[k])
  }

  /** The shape `YYYY-MM-DD HH:mm:ss`. */
  predicate ClockShape(s: string) {
    |s| == 19 && DigitsAt(s, 0, 4) && s[4] == '-' && DigitsAt(s, 5, 2) && s[7] == '-' && DigitsAt(s, 8, 2) &&
    s[10] == ' ' && DigitsAt(s, 11, 2) && s[13] == ':' && DigitsAt(s, 14, 2) && s[16] == ':' && DigitsAt(s, 17, 2)
  }

  /**
   * `new Date(time.replace(' ', 'T'))` on the clock string: a string of the
   * clock's shape naming a real time reads as that time, read as local
   * time; anything else is an invalid date.
   */
  function Parse(s: string): (r: Option<DateTime>)
    ensures r.Some? ==> Valid(r.value) && ClockShape(s)
  {
    if !ClockShape(s) then None
    else
      var d := DateTime(DigitsValue(s, 0, 4), DigitsValue(s, 5, 2), DigitsValue(s, 8, 2),
                        DigitsValue(s, 11, 2), DigitsValue(s, 14, 2), DigitsValue(s, 17, 2));
      if Valid(d) then Some(d) else None
  }

  /** Four-digit years print as four digits. */
  lemma FourDigitYear(y: int)
    requires 1000 <= y <= 9999
    ensures YearString(y) == [DigitChar(y / 1000), DigitChar(y / 100 % 10), DigitChar(y / 10 % 10), DigitChar(y % 10)]
  {
    assert Decimal(y / 1000) == [DigitChar(y / 1000)];
    assert (y / 10) / 10 == y / 100 && (y / 100) / 10 == y / 1000;
    assert Decimal(y / 100) == [DigitChar(y / 1000), DigitChar(y / 100 % 10)];
    assert Decimal(y / 10) == [DigitChar(y / 1000), DigitChar(y / 100 % 10), DigitChar(y / 10 % 10)];
  }

  lemma ReadTwo(s: string, i: nat, n: nat)
    requires 0 <= n < 100 && i + 2 <= |s| && s[i..i + 2] == [DigitChar(n / 10), DigitChar(n % 10)]
    ensures DigitsAt(s, i, 2) && DigitsValue(s, i, 2) == n
  {
    assert s[i] == s[i..i + 2][0] && s[i + 1] == s[i..i + 2][1];
  }

  lemma ReadFour(s: string, y: int)
    requires 1000 <= y <= 9999 && 4 <= |s|
    requires s[..4] == [DigitChar(y / 1000), DigitChar(y / 100 % 10), DigitChar(y / 10 % 10), DigitChar(y % 10)]
    ensures DigitsAt(s, 0, 4) && DigitsValue(s, 0, 4) == y
  {
    assert s[0] == s[..4][0] && s[1] == s[..4][1] && s[2] == s[..4][2] && s[3] == s[..4][3];
    assert DigitsValue(s, 0, 2) == y / 100 by {
      assert DigitsValue(s, 0, 1) == y / 1000;
    }
    assert DigitsValue(s, 0, 3) == y / 10;
  }

  /**
   * Reading back the clock string gives the time it was made from, for any
   * valid time in a four-digit year: the clock survives being stored as text.
   */
  lemma ParseFormat(d: DateTime)
    requires Valid(d) && 1000 <= d.year <= 9999
    ensures Parse(Format(d)) == Some(d)
  {
    FourDigitYear(d.year);
    var s := Format(d);
    assert |s| == 19;
    ReadFour(s, d.year);
    ReadTwo(s, 5, d.month);
    ReadTwo(s, 8, d.day);
    ReadTwo(s, 11, d.hour);
    ReadTwo(s, 14, d.minute);
    ReadTwo(s, 17, d.second);
  }
}
