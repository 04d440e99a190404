/**
  The strict reading of a date clause: the grammar of DateGrammar, an
  optional trailing comment such as "(GMT)", and a range check of every
  number. The offset is kept exactly as written, never moved to UTC.
*/
module DateParser {
  import opened Wrappers
  import opened Text
  import opened Lexical
  import opened Comments
  import opened Calendar
  import opened DateGrammar

  /** Every number of the clause is in its range; the weekday name is not checked against the date. */
  predicate InRange(c: DateSyntax) {
    && IsValidDate(c.year, c.month, c.day)
    && c.hour <= 23
    && c.minute <= 59
    && (c.second.Some? ==> c.second.value <= 59)
    && c.zoneMinutes <= 59
  }

  /** The zone as written, in minutes east of UTC; "-0000" is 0. */
  function OffsetMinutes(negative: bool, h: nat, m: nat): (o: int)
    ensures negative ==> o == -(h * MinutesPerHour + m)
    ensures !negative ==> o == h * MinutesPerHour + m
  {
    (if negative then -1 else 1) * (h * MinutesPerHour + m)
  }

  /** The timestamp a range-checked clause denotes; an omitted second is 0. */
  function ToTimestamp(c: DateSyntax): (t: Timestamp)
    requires WellFormed(c) && InRange(c)
    ensures t.year == c.year && t.month == c.month && t.day == c.day
    ensures t.hour == c.hour && t.minute == c.minute
    ensures t.second == (if c.second.Some? then c.second.value else 0)
    ensures t.offset == OffsetMinutes(c.negative, c.zoneHours, c.zoneMinutes)
  {
    DateTime(c.year, c.month, c.day, c.hour, c.minute,
      if c.second.Some? then c.second.value else 0,
      OffsetMinutes(c.negative, c.zoneHours, c.zoneMinutes))
  }

  /**
    The date of a clause: its trailing comment and surrounding whitespace
    removed, the rest read by the grammar, then range-checked. Any failure
    gives no date.
  */
  function ParseDateTime(clause: string): (r: Option<Timestamp>)
    ensures r.Some? ==>
      var c := ParseSyntax(StripTrailingComment(clause));
      c.Some? && InRange(c.value) && r.value == ToTimestamp(c.value)
    ensures ParseSyntax(StripTrailingComment(clause)).None? ==> r.None?
    ensures var c := ParseSyntax(StripTrailingComment(clause));
      c.Some? && InRange(c.value) ==> r == Some(ToTimestamp(c.value))
  {
    match ParseSyntax(StripTrailingComment(clause))
    case None => None
    case Some(c) => if InRange(c) then Some(ToTimestamp(c)) else None
  }

  /** The rendered clause never ends in a comment and is its own trimmed form. */
  lemma StripRendered(c: DateSyntax)
    requires WellFormed(c)
    ensures StripTrailingComment(RenderSyntax(c)) == RenderSyntax(c)
  {
    RenderShape(c);
    StripTrimmed(RenderSyntax(c));
  }

  /** A clause in the grammar's form is accepted exactly when its numbers are in range. */
  lemma ParseRendered(c: DateSyntax)
    requires WellFormed(c)
    ensures ParseDateTime(RenderSyntax(c)) == if InRange(c) then Some(ToTimestamp(c)) else None
  {
    StripRendered(c);
    ParseRenderSyntax(c);
  }

  /** Neither quote, bracket nor comment opens while the rendered text is read. */
  lemma {:induction false} RunRenderChars(s: string)
    requires AllRenderChars(s)
    ensures Run(Top, s) == Top
    decreases |s|
  {
    if s != [] {
      RunRenderChars(s[1..]);
    }
  }

  /** A trailing comment such as "(GMT)", after any whitespace, changes nothing. */
  lemma ParseRenderedWithComment(c: DateSyntax, gap: string, text: string)
    requires WellFormed(c) && AllWs(gap) && IsCommentText(text)
    ensures ParseDateTime(RenderSyntax(c) + gap + "(" + text + ")")
      == if InRange(c) then Some(ToTimestamp(c)) else None
  {
    RenderShape(c);
    RunRenderChars(RenderSyntax(c));
    StripAppendedComment(RenderSyntax(c), gap, text);
    ParseRenderSyntax(c);
  }

  /** A clause whose hour is beyond 23 gives no date, whatever else it says. */
  lemma HourOutOfRange(c: DateSyntax)
    requires WellFormed(c) && c.hour > 23
    ensures ParseDateTime(RenderSyntax(c)) == None
  {
    ParseRendered(c);
  }

  /** The offset of a parsed date is the sign and digits of the clause's zone, not UTC. */
  lemma KeepsOffset(c: DateSyntax)
    requires WellFormed(c) && InRange(c)
    ensures ParseDateTime(RenderSyntax(c)).Some?
    ensures ParseDateTime(RenderSyntax(c)).value.offset
      == (if c.negative then -1 else 1) * (c.zoneHours * 60 + c.zoneMinutes)
  {
    ParseRendered(c);
  }
}
