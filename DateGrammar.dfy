/**
  The concrete syntax of the date clause of a Received field, after the
  date-time grammar of RFC 5322, section 3.3:

    [ Www "," ] DD Mon YYYY HH ":" MM [ ":" SS ] ( "+" / "-" ) HHMM

  with one or more whitespace characters between the parts (optional after
  the comma), a day of one or two digits and every other number of the
  width shown. Names are matched exactly as written here.
*/
module DateGrammar {
  import opened Wrappers
  import opened Text

  const DayNames: seq<string> := ["Sun", "Mon", "Tue", "Wed", "Thu", "Fri", "Sat"]
  const MonthNames: seq<string> :=
    ["Jan", "Feb", "Mar", "Apr", "May", "Jun", "Jul", "Aug", "Sep", "Oct", "Nov", "Dec"]

  /** The clause as written: every number as it stands in the text, none range-checked yet. */
  datatype DateSyntax = DateSyntax(
    weekday: Option<nat>,   // index into DayNames, when "Www," is present
    day: nat,
    month: nat,             // 1 for "Jan" through 12 for "Dec"
    year: nat,
    hour: nat,
    minute: nat,
    second: Option<nat>,    // absent when ":SS" is omitted
    negative: bool,         // the zone sign is '-'
    zoneHours: nat,
    zoneMinutes: nat)

  /** The numbers fit the widths of the grammar. */
  predicate WellFormed(c: DateSyntax) {
    && (c.weekday.Some? ==> c.weekday.value < 7)
    && c.day < 100 && 1 <= c.month <= 12 && c.year < 10000
    && c.hour < 100 && c.minute < 100
    && (c.second.Some? ==> c.second.value < 100)
    && c.zoneHours < 100 && c.zoneMinutes < 100
  }

  // ---- lexical pieces: each returns what it read and the rest of the text ----

  /** Exactly n decimal digits at the front of s. */
  function Digits(s: string, n: nat): (r: Option<(nat, string)>)
    ensures r.Some? ==> |s| >= n && r.value.0 < Pow10(n) && r.value.1 == s[n..]
    ensures r.Some? <==> |s| >= n && forall i :: 0 <= i < n ==> IsDigit(s[i])
    decreases n
  {
    if n == 0 then Some((0, s))
    else if |s| < n || !IsDigit(s[n - 1]) then None
    else
      var p :- Digits(s, n - 1);
      Some((10 * p.0 + DigitValue(s[n - 1]), s[n..]))
  }

  /** A day of the month: two digits when there are two, else one. */
  function DayDigits(s: string): (r: Option<(nat, string)>)
    ensures r.Some? ==> r.value.0 < 100
  {
    if Digits(s, 2).Some? then Digits(s, 2) else Digits(s, 1)
  }

  /** At least one whitespace character, and all that follow. */
  function Ws1(s: string): (r: Option<string>)
    ensures r.Some? ==> r.value == TrimLeft(s) && |r.value| < |s|
  {
    if |s| > 0 && IsWs(s[0]) then Some(TrimLeft(s)) else None
  }

  /** The character ch. */
  function Expect(s: string, ch: char): (r: Option<string>)
    ensures r.Some? <==> |s| > 0 && s[0] == ch
    ensures r.Some? ==> r.value == s[1..]
  {
    if |s| > 0 && s[0] == ch then Some(s[1..]) else None
  }

  /** The first of names[k..] that s starts with, by its index. */
  function NameFrom(s: string, names: seq<string>, k: nat): (r: Option<(nat, string)>)
    requires k <= |names|
    ensures r.Some? ==>
      && k <= r.value.0 < |names|
      && |names[r.value.0]| <= |s| && s[..|names[r.value.0]|] == names[r.value.0]
      && r.value.1 == s[|names[r.value.0]|..]
    decreases |names| - k
  {
    if k == |names| then None
    else if |names[k]| <= |s| && s[..|names[k]|] == names[k] then Some((k, s[|names[k]|..]))
    else NameFrom(s, names, k + 1)
  }

  /** "Www," and the whitespace after it, if s starts so; nothing otherwise. */
  function WeekdayPrefix(s: string): (r: (Option<nat>, string))
    ensures r.0.Some? ==> r.0.value < 7
  {
    match NameFrom(s, DayNames, 0)
    case Some((k, rest)) =>
      (match Expect(rest, ',')
       case Some(rest') => (Some(k), TrimLeft(rest'))
       case None => (None, s))
    case None => (None, s)
  }

  /** ":SS" if present. */
  function SecondsSuffix(s: string): (r: Option<(Option<nat>, string)>)
    ensures r.Some? && r.value.0.Some? ==> r.value.0.value < 100
  {
    match Expect(s, ':')
    case Some(rest) =>
      var d :- Digits(rest, 2);
      Some((Some(d.0), d.1))
    case None => Some((None, s))
  }

  /** "+HHMM" or "-HHMM": the sign, the hours and the minutes. */
  function Zone(s: string): (r: Option<(bool, nat, nat, string)>)
    ensures r.Some? ==> r.value.1 < 100 && r.value.2 < 100
  {
    if |s| > 0 && (s[0] == '+' || s[0] == '-') then
      var h :- Digits(s[1..], 2);
      var m :- Digits(h.1, 2);
      Some((s[0] == '-', h.0, m.0, m.1))
    else None
  }

  /** "DD Mon YYYY": day, month (1-12), year and the rest. */
  function DatePart(s: string): (r: Option<(nat, nat, nat, string)>)
    ensures r.Some? ==> r.value.0 < 100 && 1 <= r.value.1 <= 12 && r.value.2 < 10000
  {
    match DayDigits(s)
    case None => None
    case Some((day, t0)) =>
      match MonthYear(t0)
      case None => None
      case Some((month, year, rest)) => Some((day, month, year, rest))
  }

  /** " Mon YYYY" after the day: month number, year and the rest. */
  function MonthYear(s: string): (r: Option<(nat, nat, string)>)
    ensures r.Some? ==> 1 <= r.value.0 <= 12 && r.value.1 < 10000
  {
    match Ws1(s)
    case None => None
    case Some(t1) => MonthThenYear(t1)
  }

  /** "Mon YYYY": month number, year and the rest. */
  function MonthThenYear(s: string): (r: Option<(nat, nat, string)>)
    ensures r.Some? ==> 1 <= r.value.0 <= 12 && r.value.1 < 10000
  {
    match NameFrom(s, MonthNames, 0)
    case None => None
    case Some((m, t2)) =>
      match YearAfter(t2)
      case None => None
      case Some((year, rest)) => Some((m + 1, year, rest))
  }

  /** " YYYY": the year and the rest. */
  function YearAfter(s: string): (r: Option<(nat, string)>)
    ensures r.Some? ==> r.value.0 < 10000
  {
    match Ws1(s)
    case None => None
    case Some(t3) => Digits(t3, 4)
  }

  /** "HH:MM[:SS]": hour, minute, second if present, and the rest. */
  function TimePart(s: string): (r: Option<(nat, nat, Option<nat>, string)>)
    ensures r.Some? ==> r.value.0 < 100 && r.value.1 < 100
    ensures r.Some? && r.value.2.Some? ==> r.value.2.value < 100
  {
    var h :- Digits(s, 2);
    var s5 :- Expect(h.1, ':');
    var mi :- Digits(s5, 2);
    var sec :- SecondsSuffix(mi.1);
    Some((h.0, mi.0, sec.0, sec.1))
  }

  /** The clause read by the grammar, or None when it does not match. */
  function ParseSyntax(s: string): (r: Option<DateSyntax>)
    ensures r.Some? ==> WellFormed(r.value)
  {
    var (weekday, s1) := WeekdayPrefix(s);
    match DatePart(s1)
    case None => None
    case Some((day, month, year, s3)) =>
      match ClockZone(s3)
      case None => None
      case Some((hour, minute, second, negative, zh, zm)) =>
        Some(DateSyntax(weekday, day, month, year, hour, minute, second, negative, zh, zm))
  }

  /** " HH:MM[:SS] +HHMM" to the end of the text: the clock and the zone. */
  function ClockZone(s: string): (r: Option<(nat, nat, Option<nat>, bool, nat, nat)>)
    ensures r.Some? ==> r.value.0 < 100 && r.value.1 < 100 && r.value.4 < 100 && r.value.5 < 100
    ensures r.Some? && r.value.2.Some? ==> r.value.2.value < 100
  {
    match Ws1(s)
    case None => None
    case Some(s4) =>
      match TimePart(s4)
      case None => None
      case Some((hour, minute, second, s5)) =>
        match Ws1(s5)
        case None => None
        case Some(s6) =>
          match Zone(s6)
          case None => None
          case Some((negative, zh, zm, s7)) =>
            if s7 != [] then None else Some((hour, minute, second, negative, zh, zm))
  }

  // ---- rendering ----

  function WeekdayText(w: Option<nat>): string
    requires w.Some? ==> w.value < 7
  {
    if w.Some? then DayNames[w.value] + ", " else ""
  }

  function SecondsText(s: Option<nat>): string
    requires s.Some? ==> s.value < 100
  {
    if s.Some? then ":" + PadDigits(s.value, 2) else ""
  }

  function ZoneText(negative: bool, h: nat, m: nat): string {
    [if negative then '-' else '+'] + PadDigits(h, 2) + PadDigits(m, 2)
  }

  /** The clause written out with single spaces and every number at its full width. */
  function RenderSyntax(c: DateSyntax): string
    requires WellFormed(c)
  {
    WeekdayText(c.weekday) + (PadDigits(c.day, 2) + (" " + (MonthNames[c.month - 1] + (" " +
      (PadDigits(c.year, 4) + (" " + (PadDigits(c.hour, 2) + (":" + (PadDigits(c.minute, 2) +
      (SecondsText(c.second) + (" " + ZoneText(c.negative, c.zoneHours, c.zoneMinutes))))))))))))
  }

  // ---- the pieces read back what was rendered ----

  lemma {:induction false} DigitsOfPad(v: nat, n: nat, rest: string)
    requires v < Pow10(n)
    ensures Digits(PadDigits(v, n) + rest, n) == Some((v, rest))
    decreases n
  {
    if n > 0 {
      var s := PadDigits(v, n) + rest;
      var d := [DigitChar(v % 10)];
      assert s == PadDigits(v / 10, n - 1) + (d + rest);
      DigitsOfPad(v / 10, n - 1, d + rest);
      assert s[n - 1] == DigitChar(v % 10);
      assert s[n..] == rest;
    }
  }

  lemma DayDigitsOfPad(v: nat, rest: string)
    requires v < 100
    ensures DayDigits(PadDigits(v, 2) + rest) == Some((v, rest))
  {
    DigitsOfPad(v, 2, rest);
  }

  lemma Ws1OfSpace(rest: string)
    requires rest == [] || !IsWs(rest[0])
    ensures Ws1(" " + rest) == Some(rest)
  {
    assert (" " + rest)[1..] == rest;
  }

  lemma DayNamesDistinct()
    ensures forall i, j :: 0 <= i < j < |DayNames| ==> DayNames[i] != DayNames[j]
    ensures forall i :: 0 <= i < |DayNames| ==> |DayNames[i]| == 3 && !IsDigit(DayNames[i][0])
  {
  }

  lemma MonthNamesDistinct()
    ensures forall i, j :: 0 <= i < j < |MonthNames| ==> MonthNames[i] != MonthNames[j]
    ensures forall i :: 0 <= i < |MonthNames| ==> |MonthNames[i]| == 3
  {
  }

  lemma {:induction false} NameFromOf(names: seq<string>, k: nat, j: nat, rest: string)
    requires k <= j < |names|
    requires forall i :: k <= i < j ==> |names[i]| == |names[j]| && names[i] != names[j]
    ensures NameFrom(names[j] + rest, names, k) == Some((j, rest))
    decreases j - k
  {
    var s := names[j] + rest;
    assert s[..|names[j]|] == names[j];
    if k < j {
      assert s[..|names[k]|] != names[k];
      NameFromOf(names, k + 1, j, rest);
    }
    assert s[|names[j]|..] == rest;
  }

  lemma MonthOf(m: nat, rest: string)
    requires 1 <= m <= 12
    ensures NameFrom(MonthNames[m - 1] + rest, MonthNames, 0) == Some((m - 1, rest))
  {
    MonthNamesDistinct();
    NameFromOf(MonthNames, 0, m - 1, rest);
  }

  lemma {:induction false} NameFromDigit(s: string, k: nat)
    requires k <= |DayNames| && |s| > 0 && IsDigit(s[0])
    ensures NameFrom(s, DayNames, k).None?
    decreases |DayNames| - k
  {
    DayNamesDistinct();
    if k < |DayNames| {
      if 3 <= |s| {
        assert s[..3][0] == s[0];
      }
      NameFromDigit(s, k + 1);
    }
  }

  lemma WeekdayPrefixOf(w: Option<nat>, rest: string)
    requires w.Some? ==> w.value < 7
    requires |rest| > 0 && IsDigit(rest[0])
    ensures WeekdayPrefix(WeekdayText(w) + rest) == (w, rest)
  {
    if w.Some? {
      WeekdayNamePrefix(w.value, rest);
    } else {
      assert WeekdayText(w) + rest == rest;
      NameFromDigit(rest, 0);
    }
  }

  lemma WeekdayNamePrefix(k: nat, rest: string)
    requires k < 7 && |rest| > 0 && IsDigit(rest[0])
    ensures WeekdayPrefix(DayNames[k] + ", " + rest) == (Some(k), rest)
  {
    var after := ", " + rest;
    assert DayNames[k] + ", " + rest == DayNames[k] + after;
    assert NameFrom(DayNames[k] + after, DayNames, 0) == Some((k, after)) by {
      DayNamesDistinct();
      NameFromOf(DayNames, 0, k, after);
    }
    assert Expect(after, ',') == Some(" " + rest) by {
      assert after[1..] == " " + rest;
    }
    TrimLeftAfterSpace(rest);
  }

  lemma TrimLeftAfterSpace(rest: string)
    requires rest == [] || !IsWs(rest[0])
    ensures TrimLeft(" " + rest) == rest
  {
    assert (" " + rest)[1..] == rest;
  }

  lemma SecondsOf(sec: Option<nat>, rest: string)
    requires sec.Some? ==> sec.value < 100
    requires |rest| > 0 && rest[0] != ':'
    ensures SecondsSuffix(SecondsText(sec) + rest) == Some((sec, rest))
  {
    match sec
    case Some(v) => SecondsDigits(v, rest);
    case None => assert SecondsText(sec) + rest == rest;
  }

  lemma SecondsDigits(v: nat, rest: string)
    requires v < 100
    ensures SecondsSuffix(SecondsText(Some(v)) + rest) == Some((Some(v), rest))
  {
    var t := PadDigits(v, 2) + rest;
    assert SecondsText(Some(v)) + rest == ":" + t;
    assert Expect(":" + t, ':') == Some(t) by { assert (":" + t)[1..] == t; }
    DigitsOfPad(v, 2, rest);
  }

  lemma ZoneOf(negative: bool, h: nat, m: nat)
    requires h < 100 && m < 100
    ensures Zone(ZoneText(negative, h, m)) == Some((negative, h, m, ""))
  {
    var z := ZoneText(negative, h, m);
    assert z[1..] == PadDigits(h, 2) + PadDigits(m, 2);
    DigitsOfPad(h, 2, PadDigits(m, 2));
    assert PadDigits(m, 2) == PadDigits(m, 2) + "";
    DigitsOfPad(m, 2, "");
  }

  lemma YearOf(year: nat, rest: string)
    requires year < 10000
    ensures YearAfter(" " + (PadDigits(year, 4) + rest)) == Some((year, rest))
  {
    Ws1OfSpace(PadDigits(year, 4) + rest);
    DigitsOfPad(year, 4, rest);
  }

  lemma MonthInitial(m: nat)
    requires 1 <= m <= 12
    ensures |MonthNames[m - 1]| == 3 && !IsWs(MonthNames[m - 1][0])
  {
    assert forall i :: 0 <= i < |MonthNames| ==> |MonthNames[i]| == 3 && 'A' <= MonthNames[i][0] <= 'Z';
  }

  lemma MonthYearSteps(s: string, t1: string, month: nat, year: nat, rest: string)
    requires Ws1(s) == Some(t1) && MonthThenYear(t1) == Some((month, year, rest))
    ensures MonthYear(s) == Some((month, year, rest))
  {
  }

  lemma MonthThenYearSteps(t1: string, t2: string, month: nat, year: nat, rest: string)
    requires 1 <= month <= 12
    requires NameFrom(t1, MonthNames, 0) == Some((month - 1, t2))
    requires YearAfter(t2) == Some((year, rest))
    ensures MonthThenYear(t1) == Some((month, year, rest))
  {
  }

  lemma MonthYearOf(month: nat, year: nat, rest: string)
    requires 1 <= month <= 12 && year < 10000
    ensures MonthYear(" " + (MonthNames[month - 1] + (" " + (PadDigits(year, 4) + rest)))) == Some((month, year, rest))
  {
    var t2 := " " + (PadDigits(year, 4) + rest);
    var t1 := MonthNames[month - 1] + t2;
    assert Ws1(" " + t1) == Some(t1) by { MonthInitial(month); Ws1OfSpace(t1); }
    assert NameFrom(t1, MonthNames, 0) == Some((month - 1, t2)) by { MonthOf(month, t2); }
    YearOf(year, rest);
    MonthThenYearSteps(t1, t2, month, year, rest);
    MonthYearSteps(" " + t1, t1, month, year, rest);
  }

  lemma DatePartOf(day: nat, month: nat, year: nat, rest: string)
    requires day < 100 && 1 <= month <= 12 && year < 10000
    ensures DatePart(PadDigits(day, 2) + (" " + (MonthNames[month - 1] + (" " + (PadDigits(year, 4) + rest)))))
      == Some((day, month, year, rest))
  {
    var t0 := " " + (MonthNames[month - 1] + (" " + (PadDigits(year, 4) + rest)));
    DayDigitsOfPad(day, t0);
    MonthYearOf(month, year, rest);
  }

  lemma TimePartOf(hour: nat, minute: nat, second: Option<nat>, rest: string)
    requires hour < 100 && minute < 100 && (second.Some? ==> second.value < 100)
    requires |rest| > 0 && rest[0] != ':'
    ensures TimePart(PadDigits(hour, 2) + (":" + (PadDigits(minute, 2) + (SecondsText(second) + rest))))
      == Some((hour, minute, second, rest))
  {
    var t8 := SecondsText(second) + rest;
    var t7 := PadDigits(minute, 2) + t8;
    var t6 := ":" + t7;
    assert Digits(PadDigits(hour, 2) + t6, 2) == Some((hour, t6)) by { DigitsOfPad(hour, 2, t6); }
    assert Expect(t6, ':') == Some(t7) by { assert t6[1..] == t7; }
    assert Digits(t7, 2) == Some((minute, t8)) by { DigitsOfPad(minute, 2, t8); }
    assert SecondsSuffix(t8) == Some((second, rest)) by { SecondsOf(second, rest); }
  }

  lemma ClockZoneSteps(s: string, s4: string, s5: string, s6: string, hour: nat, minute: nat,
                        second: Option<nat>, negative: bool, zh: nat, zm: nat)
    requires Ws1(s) == Some(s4)
    requires TimePart(s4) == Some((hour, minute, second, s5))
    requires Ws1(s5) == Some(s6)
    requires Zone(s6) == Some((negative, zh, zm, ""))
    ensures ClockZone(s) == Some((hour, minute, second, negative, zh, zm))
  {
  }

  lemma ClockZoneOf(c: DateSyntax)
    requires WellFormed(c)
    ensures ClockZone(" " + (PadDigits(c.hour, 2) + (":" + (PadDigits(c.minute, 2) +
      (SecondsText(c.second) + (" " + ZoneText(c.negative, c.zoneHours, c.zoneMinutes)))))))
      == Some((c.hour, c.minute, c.second, c.negative, c.zoneHours, c.zoneMinutes))
  {
    ClockOf(c.hour, c.minute, c.second, c.negative, c.zoneHours, c.zoneMinutes);
  }

  lemma ClockOf(hour: nat, minute: nat, second: Option<nat>, negative: bool, zh: nat, zm: nat)
    requires hour < 100 && minute < 100 && (second.Some? ==> second.value < 100) && zh < 100 && zm < 100
    ensures ClockZone(" " + (PadDigits(hour, 2) + (":" + (PadDigits(minute, 2) +
      (SecondsText(second) + (" " + ZoneText(negative, zh, zm)))))))
      == Some((hour, minute, second, negative, zh, zm))
  {
    var zone := ZoneText(negative, zh, zm);
    var after := ":" + (PadDigits(minute, 2) + (SecondsText(second) + (" " + zone)));
    var time := PadDigits(hour, 2) + after;
    PadStart(hour, after);
    ZoneStart(negative, zh, zm);
    TimePartOf(hour, minute, second, " " + zone);
    ZoneOf(negative, zh, zm);
    ClockZoneJoin(time, zone, hour, minute, second, negative, zh, zm);
  }

  lemma PadStart(v: nat, rest: string)
    ensures PadDigits(v, 2) + rest != [] && !IsWs((PadDigits(v, 2) + rest)[0])
  {
    assert (PadDigits(v, 2) + rest)[0] == PadDigits(v, 2)[0];
  }

  lemma ZoneStart(negative: bool, h: nat, m: nat)
    ensures ZoneText(negative, h, m) != [] && !IsWs(ZoneText(negative, h, m)[0])
  {
  }

  lemma ClockZoneJoin(time: string, zone: string, hour: nat, minute: nat,
                      second: Option<nat>, negative: bool, zh: nat, zm: nat)
    requires time != [] && !IsWs(time[0]) && zone != [] && !IsWs(zone[0])
    requires TimePart(time) == Some((hour, minute, second, " " + zone))
    requires Zone(zone) == Some((negative, zh, zm, ""))
    ensures ClockZone(" " + time) == Some((hour, minute, second, negative, zh, zm))
  {
    Ws1OfSpace(time);
    Ws1OfSpace(zone);
    ClockZoneSteps(" " + time, time, " " + zone, zone, hour, minute, second, negative, zh, zm);
  }

  lemma ParseSteps(s: string, date: string, t4: string, c: DateSyntax)
    requires WeekdayPrefix(s) == (c.weekday, date)
    requires DatePart(date) == Some((c.day, c.month, c.year, t4))
    requires ClockZone(t4) == Some((c.hour, c.minute, c.second, c.negative, c.zoneHours, c.zoneMinutes))
    ensures ParseSyntax(s) == Some(c)
  {
  }

  /** The grammar reads back exactly what RenderSyntax writes. */
  lemma ParseRenderSyntax(c: DateSyntax)
    requires WellFormed(c)
    ensures ParseSyntax(RenderSyntax(c)) == Some(c)
  {
    var t4 := " " + (PadDigits(c.hour, 2) + (":" + (PadDigits(c.minute, 2) +
      (SecondsText(c.second) + (" " + ZoneText(c.negative, c.zoneHours, c.zoneMinutes))))));
    var date := PadDigits(c.day, 2) + (" " + (MonthNames[c.month - 1] + (" " + (PadDigits(c.year, 4) + t4))));
    assert WeekdayText(c.weekday) + date == RenderSyntax(c);
    assert WeekdayPrefix(RenderSyntax(c)) == (c.weekday, date) by {
      WeekdayPrefixOf(c.weekday, date);
    }
    assert DatePart(date) == Some((c.day, c.month, c.year, t4)) by {
      DatePartOf(c.day, c.month, c.year, t4);
    }
    ClockZoneOf(c);
    ParseSteps(RenderSyntax(c), date, t4, c);
  }

  // ---- the rendered text contains nothing but these characters ----

  predicate IsRenderChar(ch: char) {
    IsDigit(ch) || 'A' <= ch <= 'Z' || 'a' <= ch <= 'z' || ch == ',' || ch == ' ' || ch == ':' || ch == '+' || ch == '-'
  }

  predicate AllRenderChars(s: string) {
    forall i :: 0 <= i < |s| ==> IsRenderChar(s[i])
  }

  lemma RenderCharsConcat(a: string, b: string)
    requires AllRenderChars(a) && AllRenderChars(b)
    ensures AllRenderChars(a + b)
  {
  }

  lemma NamesRenderChars()
    ensures forall i :: 0 <= i < |DayNames| ==> AllRenderChars(DayNames[i]) && 'A' <= DayNames[i][0] <= 'Z'
    ensures forall i :: 0 <= i < |MonthNames| ==> AllRenderChars(MonthNames[i])
  {
  }

  /** The clock and zone that end a rendered clause. */
  function ClockText(c: DateSyntax): string
    requires WellFormed(c)
  {
    PadDigits(c.hour, 2) + (":" + (PadDigits(c.minute, 2) +
      (SecondsText(c.second) + (" " + ZoneText(c.negative, c.zoneHours, c.zoneMinutes)))))
  }

  lemma ClockShape(c: DateSyntax)
    requires WellFormed(c)
    ensures var r := ClockText(c); |r| > 0 && IsDigit(r[|r| - 1]) && AllRenderChars(r)
  {
    var zone := ZoneText(c.negative, c.zoneHours, c.zoneMinutes);
    assert AllRenderChars(zone);
    var t := " " + zone;
    RenderCharsConcat(SecondsText(c.second), t);
    t := SecondsText(c.second) + t;
    RenderCharsConcat(PadDigits(c.minute, 2), t);
    t := PadDigits(c.minute, 2) + t;
    RenderCharsConcat(":", t);
    t := ":" + t;
    RenderCharsConcat(PadDigits(c.hour, 2), t);
    t := PadDigits(c.hour, 2) + t;
    assert t == ClockText(c);
    assert t[|t| - 1] == zone[|zone| - 1];
    assert IsDigit(zone[|zone| - 1]);
  }

  /**
    RenderSyntax writes letters, digits and the punctuation ", :+-" only; it
    begins with a letter or a digit and ends with a digit.
  */
  lemma RenderShape(c: DateSyntax)
    requires WellFormed(c)
    ensures var r := RenderSyntax(c);
      && |r| > 0 && IsTrimmed(r) && IsDigit(r[|r| - 1]) && AllRenderChars(r)
  {
    NamesRenderChars();
    var clock := ClockText(c);
    ClockShape(c);
    var t := " " + clock;
    RenderCharsConcat(PadDigits(c.year, 4), t);
    t := PadDigits(c.year, 4) + t;
    RenderCharsConcat(" ", t);
    t := " " + t;
    RenderCharsConcat(MonthNames[c.month - 1], t);
    t := MonthNames[c.month - 1] + t;
    RenderCharsConcat(" ", t);
    t := " " + t;
    RenderCharsConcat(PadDigits(c.day, 2), t);
    t := PadDigits(c.day, 2) + t;
    RenderCharsConcat(WeekdayText(c.weekday), t);
    var r := WeekdayText(c.weekday) + t;
    assert r == RenderSyntax(c);
    assert r[|r| - 1] == clock[|clock| - 1];
    if c.weekday.Some? {
      assert r[0] == DayNames[c.weekday.value][0];
    } else {
      assert r[0] == PadDigits(c.day, 2)[0];
    }
  }
}
