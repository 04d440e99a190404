/**
  Timestamps on the proleptic Gregorian calendar, as the date-time of
  RFC 5322 (section 3.3) describes them: a calendar date, a time of day and
  the zone offset written in the text, kept as minutes east of UTC.
*/
module Calendar {

  datatype DateTime = DateTime(
    year: int, month: int, day: int,
    hour: int, minute: int, second: int,
    offset: int)

  const MinutesPerHour := 60

  predicate IsLeapYear(y: int) {
    (y % 4 == 0 && y % 100 != 0) || y % 400 == 0
  }

  function DaysInMonth(y: int, m: int): (n: int)
    requires 1 <= m <= 12
    ensures 28 <= n <= 31
    ensures m == 2 ==> (n == 29 <==> IsLeapYear(y))
  {
    if m == 2 then (if IsLeapYear(y) then 29 else 28)
    else if m == 4 || m == 6 || m == 9 || m == 11 then 30
    else 31
  }

  predicate IsValidDate(y: int, m: int, d: int) {
    1 <= m <= 12 && 1 <= d <= DaysInMonth(y, m)
  }

  /**
    A timestamp the model can hold: a valid date with a four-digit year, a
    time of day with hour 0-23 and minute and second 0-59, and an offset that
    fits the +HHMM form (at most 99 hours and 59 minutes either way).
  */
  predicate IsValidDateTime(dt: DateTime) {
    && 0 <= dt.year <= 9999
    && IsValidDate(dt.year, dt.month, dt.day)
    && 0 <= dt.hour <= 23
    && 0 <= dt.minute <= 59
    && 0 <= dt.second <= 59
    && -(99 * MinutesPerHour + 59) <= dt.offset <= 99 * MinutesPerHour + 59
  }

  type Timestamp = dt: DateTime | IsValidDateTime(dt) witness DateTime(1970, 1, 1, 0, 0, 0, 0)

  /** Midnight at offset +0000 on a valid date. */
  function Midnight(y: int, m: int, d: int): (t: Timestamp)
    requires 0 <= y <= 9999 && IsValidDate(y, m, d)
    ensures t.year == y && t.month == m && t.day == d
    ensures t.hour == 0 && t.minute == 0 && t.second == 0 && t.offset == 0
  {
    DateTime(y, m, d, 0, 0, 0, 0)
  }

  /**
    The number of days from 1970-01-01 to the given date. Months are counted
    from March, so that the leap day is the last day of the counting year.
  */
  function DayNumber(y: int, m: int, d: int): int
    requires 1 <= m <= 12
  {
    var y' := if m <= 2 then y - 1 else y;
    var mp := if m > 2 then m - 3 else m + 9;
    365 * y' + y' / 4 - y' / 100 + y' / 400 + (153 * mp + 2) / 5 + d - 1 - 719468
  }

  /** Day of the week, 0 for Sunday through 6 for Saturday. */
  function Weekday(y: int, m: int, d: int): (w: nat)
    requires 1 <= m <= 12
    ensures w < 7
  {
    (DayNumber(y, m, d) + 4) % 7
  }

  /** The calendar day after a valid date. */
  function NextDay(y: int, m: int, d: int): (r: (int, int, int))
    requires IsValidDate(y, m, d)
  {
    if d < DaysInMonth(y, m) then (y, m, d + 1)
    else if m < 12 then (y, m + 1, 1)
    else (y + 1, 1, 1)
  }

  /** The epoch of DayNumber, 1970-01-01, was a Thursday. */
  lemma Epoch()
    ensures DayNumber(1970, 1, 1) == 0 && Weekday(1970, 1, 1) == 4
  {
  }

  lemma DivStep4(y: int)
    ensures y / 4 - (y - 1) / 4 == if y % 4 == 0 then 1 else 0
  {
  }

  lemma DivStep100(y: int)
    ensures y / 100 - (y - 1) / 100 == if y % 100 == 0 then 1 else 0
  {
  }

  lemma DivStep400(y: int)
    ensures y / 400 - (y - 1) / 400 == if y % 400 == 0 then 1 else 0
  {
  }

  /** The days of the year before the first of month m, counted from March 1st. */
  lemma MonthStarts(m: int)
    requires 1 <= m <= 12 && m != 2 && m != 12
    ensures var mp := if m > 2 then m - 3 else m + 9;
      (153 * (mp + 1) + 2) / 5 - (153 * mp + 2) / 5 == DaysInMonth(2001, m)
  {
    if m == 1 {} else if m == 3 {} else if m == 4 {} else if m == 5 {}
    else if m == 6 {} else if m == 7 {} else if m == 8 {} else if m == 9 {}
    else if m == 10 {} else {}
  }

  lemma EndOfFebruary(y: int)
    ensures DayNumber(y, 3, 1) == DayNumber(y, 2, DaysInMonth(y, 2)) + 1
  {
    DivStep4(y);
    DivStep100(y);
    DivStep400(y);
  }

  lemma EndOfDecember(y: int)
    ensures DayNumber(y + 1, 1, 1) == DayNumber(y, 12, 31) + 1
  {
  }

  lemma EndOfOtherMonth(y: int, m: int)
    requires 1 <= m <= 11 && m != 2
    ensures DayNumber(y, m + 1, 1) == DayNumber(y, m, DaysInMonth(y, m)) + 1
  {
    MonthStarts(m);
  }

  /**
    DayNumber counts days: the day after any valid date is a valid date with
    the next number. This ties the closed form to the calendar rules (month
    lengths, leap years).
  */
  lemma DayNumberNextDay(y: int, m: int, d: int)
    requires IsValidDate(y, m, d)
    ensures var (y', m', d') := NextDay(y, m, d);
      IsValidDate(y', m', d') && DayNumber(y', m', d') == DayNumber(y, m, d) + 1
  {
    if d == DaysInMonth(y, m) {
      if m == 2 {
        EndOfFebruary(y);
      } else if m == 12 {
        EndOfDecember(y);
      } else {
        EndOfOtherMonth(y, m);
      }
    }
  }

  /** Consecutive days have consecutive weekdays. */
  lemma WeekdayNextDay(y: int, m: int, d: int)
    requires IsValidDate(y, m, d)
    ensures var (y', m', d') := NextDay(y, m, d);
      1 <= m' <= 12 && Weekday(y', m', d') == (Weekday(y, m, d) + 1) % 7
  {
    var (y', m', d') := NextDay(y, m, d);
    DayNumberNextDay(y, m, d);
    WeekStep(DayNumber(y, m, d) + 4, DayNumber(y', m', d') + 4);
  }

  lemma WeekStep(n: int, n': int)
    requires n' == n + 1
    ensures n' % 7 == (n % 7 + 1) % 7
  {
  }
}
