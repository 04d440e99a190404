/**
  The formatted date of a Received field, "Www, DD Mon YYYY HH:MM:SS +ZZZZ":
  the weekday of the calendar date, every number at full width, and the
  stored offset written back as a sign, hours and minutes.
*/
module DateFormat {
  import opened Wrappers
  import opened Text
  import opened Calendar
  import opened DateGrammar
  import opened DateParser

  /** The clause that writes t out in full: weekday and seconds present, offset split into hours and minutes. */
  function SyntaxOf(t: Timestamp): (c: DateSyntax)
    ensures WellFormed(c) && InRange(c) && ToTimestamp(c) == t
    ensures c.weekday == Some(Weekday(t.year, t.month, t.day))
    ensures c.second.Some?
  {
    var mag := if t.offset < 0 then -t.offset else t.offset;
    DateSyntax(Some(Weekday(t.year, t.month, t.day)), t.day, t.month, t.year, t.hour, t.minute,
      Some(t.second), t.offset < 0, mag / MinutesPerHour, mag % MinutesPerHour)
  }

  function FormatDate(t: Timestamp): string {
    RenderSyntax(SyntaxOf(t))
  }

  /** The strict parser reads a formatted date back as the same timestamp, offset included. */
  lemma FormatParse(t: Timestamp)
    ensures ParseDateTime(FormatDate(t)) == Some(t)
  {
    ParseRendered(SyntaxOf(t));
  }

  /** Two timestamps with the same formatted date are the same timestamp. */
  lemma FormatInjective(a: Timestamp, b: Timestamp)
    requires FormatDate(a) == FormatDate(b)
    ensures a == b
  {
    FormatParse(a);
    FormatParse(b);
  }

  /** Every formatted date is 31 characters long and opens with the weekday name and a comma. */
  lemma FormatShape(t: Timestamp)
    ensures var s := FormatDate(t);
      && |s| == 31
      && s[..3] == DayNames[Weekday(t.year, t.month, t.day)]
      && s[3..5] == ", "
  {
    var c := SyntaxOf(t);
    var w := DayNames[Weekday(t.year, t.month, t.day)];
    DayNamesDistinct();
    var rest := PadDigits(c.day, 2) + (" " + (MonthNames[c.month - 1] + (" " +
      (PadDigits(c.year, 4) + (" " + (PadDigits(c.hour, 2) + (":" + (PadDigits(c.minute, 2) +
      (SecondsText(c.second) + (" " + ZoneText(c.negative, c.zoneHours, c.zoneMinutes)))))))))));
    assert FormatDate(t) == w + ", " + rest;
    assert |rest| == 26;
  }

  /** The text of a midnight +0000 timestamp: weekday, date, "00:00:00 +0000". */
  lemma FormatMidnight(y: int, m: int, d: int)
    requires 0 <= y <= 9999 && IsValidDate(y, m, d)
    ensures FormatDate(Midnight(y, m, d))
      == DayNames[Weekday(y, m, d)] + ", " + PadDigits(d, 2) + " " + MonthNames[m - 1] + " "
         + PadDigits(y, 4) + " 00:00:00 +0000"
  {
    var c := DateSyntax(Some(Weekday(y, m, d)), d, m, y, 0, 0, Some(0), false, 0, 0);
    MidnightSyntax(y, m, d);
    MidnightClock();
    MidnightRegroup(DayNames[Weekday(y, m, d)], PadDigits(d, 2), MonthNames[m - 1], PadDigits(y, 4));
    assert WeekdayText(c.weekday) == DayNames[Weekday(y, m, d)] + ", ";
  }

  lemma MidnightSyntax(y: int, m: int, d: int)
    requires 0 <= y <= 9999 && IsValidDate(y, m, d)
    ensures SyntaxOf(Midnight(y, m, d)) == DateSyntax(Some(Weekday(y, m, d)), d, m, y, 0, 0, Some(0), false, 0, 0)
  {
  }

  lemma MidnightClock()
    ensures PadDigits(0, 2) + (":" + (PadDigits(0, 2) + (SecondsText(Some(0)) + (" " + ZoneText(false, 0, 0)))))
      == "00:00:00 +0000"
  {
    PadZero();
    SecondsZero();
    ZoneZero();
    ClockJoin(PadDigits(0, 2), SecondsText(Some(0)), ZoneText(false, 0, 0));
  }

  lemma PadZero()
    ensures PadDigits(0, 2) == "00"
  {
  }

  lemma SecondsZero()
    ensures SecondsText(Some(0)) == ":00"
  {
    PadZero();
  }

  lemma ZoneZero()
    ensures ZoneText(false, 0, 0) == "+0000"
  {
    PadZero();
  }

  lemma ClockJoin(zero: string, sec: string, zone: string)
    requires zero == "00" && sec == ":00" && zone == "+0000"
    ensures zero + (":" + (zero + (sec + (" " + zone)))) == "00:00:00 +0000"
  {
  }

  lemma MidnightRegroup(w: string, dd: string, mon: string, yy: string)
    ensures (w + ", ") + (dd + (" " + (mon + (" " + (yy + (" " + "00:00:00 +0000"))))))
      == w + ", " + dd + " " + mon + " " + yy + " 00:00:00 +0000"
  {
  }
}
