/**
  The date recovered from a value whose tokens do not classify: the first
  "DD Mon YYYY" anywhere in the raw text, whose day no digit precedes and
  whose year no digit follows. A weekday name in front of it does not change
  the date, so it is not looked for; the time of day and the zone are not
  read. The date is taken at midnight, offset +0000.

  The text is read once, left to right, by a small scanner (Scan, Step,
  Feed); FirstDate is the reference definition it is proved against.
*/
module Fallback {
  import opened Wrappers
  import opened Text
  import opened Calendar
  import opened DateGrammar

  // ---- the reference definition ----

  /** The outcome of " Mon YYYY" after day d: the date, unless the year runs on into another digit. */
  function DateEnd(d: nat, r: Option<(nat, nat, string)>): Option<(nat, nat, nat)> {
    match r
    case None => None
    case Some((m, y, rest)) => if rest != [] && IsDigit(rest[0]) then None else Some((d, m, y))
  }

  /** The date that the text t after day d completes. */
  function AfterDay(d: nat, t: string): Option<(nat, nat, nat)> {
    DateEnd(d, MonthYear(t))
  }

  /** The date the grammar's "DD Mon YYYY" reads at the front of s, as day, month and year. */
  function DateHere(s: string): (r: Option<(nat, nat, nat)>)
    ensures r.Some? ==> |s| > 0 && IsDigit(s[0])
    ensures r.Some? ==> r.value.0 < 100 && 1 <= r.value.1 <= 12 && r.value.2 < 10000
  {
    match DatePart(s)
    case None => None
    case Some((d, m, y, rest)) => if rest != [] && IsDigit(rest[0]) then None else Some((d, m, y))
  }

  /**
    The first date in s that starts where no digit precedes it; afterDigit
    tells whether a digit precedes s itself.
  */
  function FirstDate(s: string, afterDigit: bool): (r: Option<(nat, nat, nat)>)
    ensures r.Some? ==> r.value.0 < 100 && 1 <= r.value.1 <= 12 && r.value.2 < 10000
    decreases |s|
  {
    if s == [] then None
    else if !afterDigit && DateHere(s).Some? then DateHere(s)
    else FirstDate(s[1..], IsDigit(s[0]))
  }

  /** The date the grammar reads at index i of s, found by stepping along s one character at a time. */
  function DateAt(s: string, i: nat): Option<(nat, nat, nat)>
    decreases i
  {
    if s == [] then None
    else if i == 0 then DateHere(s)
    else DateAt(s[1..], i - 1)
  }

  /** DateAt(s, i) is what the grammar reads from index i on. */
  lemma {:induction false} DateAtIs(s: string, i: nat)
    requires i <= |s|
    ensures DateAt(s, i) == DateHere(s[i..])
    decreases i
  {
    if s == [] {
      assert s[i..] == [];
    } else if i == 0 {
      assert s[0..] == s;
    } else {
      DateAtIs(s[1..], i - 1);
      assert s[1..][i - 1..] == s[i..];
    }
  }

  /** A date starts at index i of s: the grammar reads one there, and no digit stands just before it. */
  predicate StartsAt(s: string, afterDigit: bool, i: nat) {
    && i < |s|
    && (if i == 0 then !afterDigit else !IsDigit(s[i - 1]))
    && DateAt(s, i).Some?
  }

  /** FirstDate is the date at the least index where one starts, and there is none when no date starts anywhere. */
  lemma FirstDateSpec(s: string, afterDigit: bool)
    ensures FirstDate(s, afterDigit).None? ==> forall i: nat :: !StartsAt(s, afterDigit, i)
    ensures FirstDate(s, afterDigit).Some? ==>
      exists i: nat :: (&& StartsAt(s, afterDigit, i)
                        && FirstDate(s, afterDigit) == DateHere(s[i..])
                        && forall j: nat :: j < i ==> !StartsAt(s, afterDigit, j))
  {
    if FirstDate(s, afterDigit).None? {
      FirstDateNone(s, afterDigit);
    } else {
      var i := FirstDateAt(s, afterDigit);
      DateAtIs(s, i);
    }
  }

  lemma {:induction false} FirstDateNone(s: string, afterDigit: bool)
    requires FirstDate(s, afterDigit).None?
    ensures forall i: nat :: !StartsAt(s, afterDigit, i)
    decreases |s|
  {
    if s != [] {
      FirstDateNone(s[1..], IsDigit(s[0]));
      forall i: nat ensures !StartsAt(s, afterDigit, i) {
        if i > 0 {
          StartsShift(s, afterDigit, i - 1);
        }
      }
    }
  }

  /** The index where the first date starts. */
  lemma {:induction false} FirstDateAt(s: string, afterDigit: bool) returns (i: nat)
    requires FirstDate(s, afterDigit).Some?
    ensures StartsAt(s, afterDigit, i) && FirstDate(s, afterDigit) == DateAt(s, i)
    ensures forall j: nat :: j < i ==> !StartsAt(s, afterDigit, j)
    decreases |s|
  {
    if StartsAt(s, afterDigit, 0) {
      i := 0;
    } else {
      var k := FirstDateAt(s[1..], IsDigit(s[0]));
      StartLater(s, afterDigit, k);
      i := k + 1;
    }
  }

  /** When no date starts at index 0, the first start in the tail is the first start in s. */
  lemma StartLater(s: string, afterDigit: bool, k: nat)
    requires s != [] && !StartsAt(s, afterDigit, 0)
    requires StartsAt(s[1..], IsDigit(s[0]), k)
    requires forall j: nat :: j < k ==> !StartsAt(s[1..], IsDigit(s[0]), j)
    ensures StartsAt(s, afterDigit, k + 1) && DateAt(s, k + 1) == DateAt(s[1..], k)
    ensures forall j: nat :: j < k + 1 ==> !StartsAt(s, afterDigit, j)
  {
    StartsShift(s, afterDigit, k);
    forall j: nat | j < k + 1 ensures !StartsAt(s, afterDigit, j) {
      if j > 0 {
        StartsShift(s, afterDigit, j - 1);
      }
    }
  }

  /** A date starts at index i + 1 of s exactly when one starts at index i of its tail. */
  lemma StartsShift(s: string, afterDigit: bool, i: nat)
    requires s != []
    ensures StartsAt(s, afterDigit, i + 1) == StartsAt(s[1..], IsDigit(s[0]), i)
  {
    if 0 < i < |s| - 1 {
      assert s[i] == s[1..][i - 1];
    }
  }

  // ---- the scanner ----

  /** What the scanner has read of the date it is reading, if any. */
  datatype Scan =
    | Idle(afterDigit: bool)                              // no date under way
    | Day(day: nat, digits: nat)                          // the day's digits so far
    | Gap1(day: nat)                                      // whitespace after the day
    | Mon(day: nat, letters: string)                      // the month name so far
    | Gap2(day: nat, month: nat)                          // whitespace after the month
    | Year(day: nat, month: nat, year: nat, digits: nat)  // the year's digits so far
    | Found(day: nat, month: nat, year: nat)              // a whole date has been read

  predicate Valid(st: Scan) {
    match st
    case Idle(_) => true
    case Day(d, n) => 1 <= n <= 2 && d < Pow10(n)
    case Gap1(d) => d < 100
    case Mon(d, p) =>
      && d < 100 && 1 <= |p| <= 3
      && forall i :: 0 <= i < |p| ==> !IsWs(p[i]) && !IsDigit(p[i])
    case Gap2(d, m) => d < 100 && 1 <= m <= 12
    case Year(d, m, y, n) => d < 100 && 1 <= m <= 12 && 1 <= n <= 4 && y < Pow10(n)
    case Found(d, m, y) => d < 100 && 1 <= m <= 12 && y < 10000
  }

  /** The scanner after reading ch. A failed date gives way to one that ch itself may start. */
  function Step(st: Scan, ch: char): (r: Scan)
    requires Valid(st)
    ensures Valid(r)
  {
    match st
    case Idle(afterDigit) =>
      if !IsDigit(ch) then Idle(false)
      else if afterDigit then Idle(true)
      else Day(DigitValue(ch), 1)
    case Day(d, n) =>
      if IsDigit(ch) then (if n == 1 then Day(10 * d + DigitValue(ch), 2) else Idle(true))
      else if IsWs(ch) then Gap1(d)
      else Idle(false)
    case Gap1(d) =>
      if IsWs(ch) then Gap1(d)
      else if IsDigit(ch) then Day(DigitValue(ch), 1)
      else Mon(d, [ch])
    case Mon(d, p) =>
      if IsDigit(ch) then Day(DigitValue(ch), 1)
      else if |p| < 3 then (if IsWs(ch) then Idle(false) else Mon(d, p + [ch]))
      else if !IsWs(ch) then Idle(false)
      else
        (match NameFrom(p, MonthNames, 0)
         case Some((k, _)) => Gap2(d, k + 1)
         case None => Idle(false))
    case Gap2(d, m) =>
      if IsWs(ch) then Gap2(d, m)
      else if IsDigit(ch) then Year(d, m, DigitValue(ch), 1)
      else Idle(false)
    case Year(d, m, y, n) =>
      if IsDigit(ch) then (if n < 4 then Year(d, m, 10 * y + DigitValue(ch), n + 1) else Idle(true))
      else if n == 4 then Found(d, m, y)
      else if n <= 2 && IsWs(ch) then Gap1(y)
      else Idle(false)
    case Found(_, _, _) => st
  }

  /** The scanner after reading all of s. */
  function Feed(st: Scan, s: string): (r: Scan)
    requires Valid(st)
    ensures Valid(r)
    decreases |s|
  {
    if s == [] then st else Feed(Step(st, s[0]), s[1..])
  }

  /** The date the scanner holds at the end of the text: a whole date, or one whose year ends the text. */
  function Final(st: Scan): Option<(nat, nat, nat)> {
    match st
    case Found(d, m, y) => Some((d, m, y))
    case Year(d, m, y, n) => if n == 4 then Some((d, m, y)) else None
    case _ => None
  }

  /** The day, month and year the scanner finds in s. */
  function ScanDate(s: string): Option<(nat, nat, nat)> {
    Final(Feed(Idle(false), s))
  }

  /** The fallback date of a raw value: the date it shows first, at midnight +0000, if that is a calendar date. */
  function FallbackDate(raw: string): (r: Option<Timestamp>)
    ensures r.Some? ==> r.value.hour == 0 && r.value.minute == 0 && r.value.second == 0 && r.value.offset == 0
    ensures r.Some? ==> FirstDate(raw, false) == Some((r.value.day, r.value.month, r.value.year))
    ensures r.None? ==> FirstDate(raw, false).None? || !IsValidDate(FirstDate(raw, false).value.2,
      FirstDate(raw, false).value.1, FirstDate(raw, false).value.0)
  {
    ScanFindsFirst(raw);
    match ScanDate(raw)
    case None => None
    case Some((d, m, y)) => if IsValidDate(y, m, d) then Some(Midnight(y, m, d)) else None
  }

  /** Reading a concatenation is reading its parts in turn. */
  lemma {:induction false} FeedConcat(st: Scan, a: string, b: string)
    requires Valid(st)
    ensures Feed(st, a + b) == Feed(Feed(st, a), b)
    decreases |a|
  {
    if a == [] {
      assert a + b == b;
    } else {
      assert (a + b)[1..] == a[1..] + b;
      FeedConcat(Step(st, a[0]), a[1..], b);
    }
  }

  // ---- what each scanner state stands for ----

  function OrElse(a: Option<(nat, nat, nat)>, b: Option<(nat, nat, nat)>): Option<(nat, nat, nat)> {
    if a.Some? then a else b
  }

  /**
    The date that reading s from state st leads to, by the reference
    definition: the date under way if s completes it, else the first date
    that starts later. Once the month is read, only the year is left to
    complete the date (AfterMonth shows that this is what AfterDay reads).
  */
  function Pending(st: Scan, s: string): Option<(nat, nat, nat)>
    requires Valid(st)
  {
    match st
    case Idle(afterDigit) => FirstDate(s, afterDigit)
    case Day(d, n) => FirstDate(PadDigits(d, n) + s, false)
    case Gap1(d) => OrElse(AfterDay(d, " " + s), FirstDate(s, false))
    case Mon(d, p) => OrElse(AfterDay(d, " " + (p + s)), FirstDate(s, false))
    case Gap2(d, m) => OrElse(DateEnd(d, YearOutcome(m, YearAfter(" " + s))), FirstDate(s, false))
    case Year(d, m, y, n) =>
      OrElse(DateEnd(d, YearOutcome(m, Digits(PadDigits(y, n) + s, 4))), FirstDate(PadDigits(y, n) + s, false))
    case Found(d, m, y) => Some((d, m, y))
  }

  /** The scanner finds exactly the first date of the text. */
  lemma ScanFindsFirst(s: string)
    ensures ScanDate(s) == FirstDate(s, false)
  {
    FeedPending(Idle(false), s);
  }

  lemma {:induction false} FeedPending(st: Scan, s: string)
    requires Valid(st)
    ensures Final(Feed(st, s)) == Pending(st, s)
    decreases |s|
  {
    if s == [] {
      FinalPending(st);
    } else {
      assert s == [s[0]] + s[1..];
      StepPending(st, s[0], s[1..]);
      FeedPending(Step(st, s[0]), s[1..]);
    }
  }

  lemma StepPending(st: Scan, ch: char, s: string)
    requires Valid(st)
    ensures Pending(Step(st, ch), s) == Pending(st, [ch] + s)
  {
    match st
    case Idle(ad) => StepIdle(ad, ch, s);
    case Day(d, n) => StepDay(d, n, ch, s);
    case Gap1(d) => StepGap1(d, ch, s);
    case Mon(d, p) => StepMon(d, p, ch, s);
    case Gap2(d, m) => StepGap2(d, m, ch, s);
    case Year(d, m, y, n) => StepYear(d, m, y, n, ch, s);
    case Found(_, _, _) =>
  }

  // ---- one step from each state ----

  lemma StepIdle(ad: bool, ch: char, s: string)
    ensures Pending(Step(Idle(ad), ch), s) == Pending(Idle(ad), [ch] + s)
  {
    if !IsDigit(ch) {
      NonDigitFirst(ch, s, ad);
    } else if ad {
      DigitAfterDigit(ch, s);
    } else {
      SingleDigit(ch);
    }
  }

  lemma StepDay(d: nat, n: nat, ch: char, s: string)
    requires Valid(Day(d, n))
    ensures Pending(Step(Day(d, n), ch), s) == Pending(Day(d, n), [ch] + s)
  {
    if IsDigit(ch) && n == 1 {
      assert Step(Day(d, n), ch) == Day(10 * d + DigitValue(ch), 2);
      PadDigitsAppend(d, 1, ch);
      assert PadDigits(10 * d + DigitValue(ch), 2) + s == PadDigits(d, n) + ([ch] + s);
    } else if IsDigit(ch) {
      assert Step(Day(d, n), ch) == Idle(true);
      DayThird(d, ch, s);
    } else if IsWs(ch) {
      assert Step(Day(d, n), ch) == Gap1(d);
      DayThenWs(d, n, ch, s);
    } else {
      assert Step(Day(d, n), ch) == Idle(false);
      DayThenOther(d, n, ch, s);
    }
  }

  lemma StepGap1(d: nat, ch: char, s: string)
    requires Valid(Gap1(d))
    ensures Pending(Step(Gap1(d), ch), s) == Pending(Gap1(d), [ch] + s)
  {
    NonDigitOrDigit(ch, s);
    if IsWs(ch) {
      assert Step(Gap1(d), ch) == Gap1(d);
      SpacesBeforeMonth(ch, s);
    } else if IsDigit(ch) {
      assert Step(Gap1(d), ch) == Day(DigitValue(ch), 1);
      SingleDigit(ch);
      MonthYearAfterSpace([ch] + s);
      MonthNoStart([ch] + s, 0);
    } else {
      assert Step(Gap1(d), ch) == Mon(d, [ch]);
      assert [ch] + s == [ch] + s;
    }
  }

  lemma StepMon(d: nat, p: string, ch: char, s: string)
    requires Valid(Mon(d, p))
    ensures Pending(Step(Mon(d, p), ch), s) == Pending(Mon(d, p), [ch] + s)
  {
    if |p| < 3 && !IsWs(ch) && !IsDigit(ch) {
      assert Step(Mon(d, p), ch) == Mon(d, p + [ch]);
      assert (p + [ch]) + s == p + ([ch] + s);
      NonDigitFirst(ch, s, false);
    } else if |p| == 3 && IsWs(ch) {
      MonthComplete(d, p, ch, s);
    } else {
      MonthSpoilt(d, p, ch, s);
    }
  }

  /** A digit, early whitespace or a fourth letter ends the month name under way without a date. */
  lemma MonthSpoilt(d: nat, p: string, ch: char, s: string)
    requires Valid(Mon(d, p))
    requires if |p| < 3 then IsWs(ch) || IsDigit(ch) else !IsWs(ch)
    ensures Pending(Step(Mon(d, p), ch), s) == Pending(Mon(d, p), [ch] + s)
  {
    var t := p + ([ch] + s);
    assert t[0] == p[0];
    MonthYearAfterSpace(t);
    MonthLost(p, ch, s);
    assert AfterDay(d, " " + t) == None;
    if IsDigit(ch) {
      assert Step(Mon(d, p), ch) == Day(DigitValue(ch), 1);
      SingleDigit(ch);
    } else {
      assert Step(Mon(d, p), ch) == Idle(false);
      NonDigitFirst(ch, s, false);
    }
  }

  lemma StepGap2(d: nat, m: nat, ch: char, s: string)
    requires Valid(Gap2(d, m))
    ensures Pending(Step(Gap2(d, m), ch), s) == Pending(Gap2(d, m), [ch] + s)
  {
    NonDigitOrDigit(ch, s);
    if IsWs(ch) {
      assert Step(Gap2(d, m), ch) == Gap2(d, m);
      SpacesBeforeYear(ch, s);
    } else {
      YearAfterSpace([ch] + s);
      if IsDigit(ch) {
        assert Step(Gap2(d, m), ch) == Year(d, m, DigitValue(ch), 1);
        SingleDigit(ch);
      } else {
        assert Step(Gap2(d, m), ch) == Idle(false);
      }
    }
  }

  lemma StepYear(d: nat, m: nat, y: nat, n: nat, ch: char, s: string)
    requires Valid(Year(d, m, y, n))
    ensures Pending(Step(Year(d, m, y, n), ch), s) == Pending(Year(d, m, y, n), [ch] + s)
  {
    if IsDigit(ch) && n < 4 {
      assert Step(Year(d, m, y, n), ch) == Year(d, m, 10 * y + DigitValue(ch), n + 1);
      PadDigitsAppend(y, n, ch);
      assert PadDigits(10 * y + DigitValue(ch), n + 1) + s == PadDigits(y, n) + ([ch] + s);
    } else if n == 4 {
      StepYearFour(d, m, y, ch, s);
    } else {
      StepYearShort(d, m, y, n, ch, s);
    }
  }

  /** After four digits of year a non-digit ends the date and a digit spoils it. */
  lemma StepYearFour(d: nat, m: nat, y: nat, ch: char, s: string)
    requires Valid(Year(d, m, y, 4))
    ensures Pending(Step(Year(d, m, y, 4), ch), s) == Pending(Year(d, m, y, 4), [ch] + s)
  {
    var yt := PadDigits(y, 4);
    DigitsOfPad(y, 4, [ch] + s);
    if IsDigit(ch) {
      assert Step(Year(d, m, y, 4), ch) == Idle(true);
      DigitsThen(yt, ch, s);
      ThreeDigits(yt + ([ch] + s));
    } else {
      assert Step(Year(d, m, y, 4), ch) == Found(d, m, y);
    }
  }

  /** Fewer than four digits of year and then a non-digit: those digits may be the day of a later date. */
  lemma StepYearShort(d: nat, m: nat, y: nat, n: nat, ch: char, s: string)
    requires Valid(Year(d, m, y, n)) && n < 4 && !IsDigit(ch)
    ensures Pending(Step(Year(d, m, y, n), ch), s) == Pending(Year(d, m, y, n), [ch] + s)
  {
    var yt := PadDigits(y, n);
    DigitsShort(y, n, [ch] + s);
    DigitsThen(yt, ch, s);
    NonDigitOrDigit(ch, s);
    if n == 3 {
      assert Step(Year(d, m, y, n), ch) == Idle(false);
      ThreeDigits(yt + ([ch] + s));
    } else if IsWs(ch) {
      assert Step(Year(d, m, y, n), ch) == Gap1(y);
      DayThenWsHere(y, n, ch, s);
    } else {
      assert Step(Year(d, m, y, n), ch) == Idle(false);
      DayThenOtherHere(y, n, ch, s);
    }
  }

  // ---- the end of the text in each state ----

  lemma FinalPending(st: Scan)
    requires Valid(st)
    ensures Final(st) == Pending(st, [])
  {
    match st
    case Idle(_) =>
    case Day(d, n) => FinalDay(d, n);
    case Gap1(d) => FinalGap1(d);
    case Mon(d, p) => FinalMon(d, p);
    case Gap2(d, m) => FinalGap2(d, m);
    case Year(d, m, y, n) => FinalYear(d, m, y, n);
    case Found(_, _, _) =>
  }

  lemma FinalDay(d: nat, n: nat)
    requires Valid(Day(d, n))
    ensures Final(Day(d, n)) == Pending(Day(d, n), [])
  {
    var dt := PadDigits(d, n);
    assert dt + [] == dt;
    DigitsThenEnd(dt);
    HereAfterDay(d, n, []);
    assert dt + [] == dt;
    MonthYearNonWs([]);
  }

  lemma FinalGap1(d: nat)
    requires Valid(Gap1(d))
    ensures Final(Gap1(d)) == Pending(Gap1(d), [])
  {
    assert " " + [] == " " + "";
    MonthYearAfterSpace([]);
    NameFromEmpty(MonthNames, 0);
  }

  lemma FinalMon(d: nat, p: string)
    requires Valid(Mon(d, p))
    ensures Final(Mon(d, p)) == Pending(Mon(d, p), [])
  {
    assert p + [] == p;
    MonthYearAfterSpace(p);
    match NameFrom(p, MonthNames, 0)
    case None =>
    case Some((k, r)) =>
      assert r == p[|MonthNames[k]|..];
      MonthThenYearVia(p, k, r);
      assert |r| <= |p|;
      YearAfterNonWs(r);
  }

  lemma FinalGap2(d: nat, m: nat)
    requires Valid(Gap2(d, m))
    ensures Final(Gap2(d, m)) == Pending(Gap2(d, m), [])
  {
    YearAfterSpace([]);
  }

  lemma FinalYear(d: nat, m: nat, y: nat, n: nat)
    requires Valid(Year(d, m, y, n))
    ensures Final(Year(d, m, y, n)) == Pending(Year(d, m, y, n), [])
  {
    var yt := PadDigits(y, n);
    assert yt + [] == yt;
    if n == 4 {
      YearFourEnd(y);
    } else {
      YearShortEnd(y, n);
    }
  }

  lemma YearFourEnd(y: nat)
    requires y < 10000
    ensures Digits(PadDigits(y, 4), 4) == Some((y, []))
  {
    DigitsOfPad(y, 4, []);
    assert PadDigits(y, 4) + [] == PadDigits(y, 4);
  }

  /** Fewer than four digits end the text: no year, and no date starts among them. */
  lemma YearShortEnd(y: nat, n: nat)
    requires 1 <= n < 4 && y < Pow10(n)
    ensures Digits(PadDigits(y, n), 4) == None
    ensures FirstDate(PadDigits(y, n), false) == None
  {
    var yt := PadDigits(y, n);
    assert yt + [] == yt;
    DigitsShort(y, n, []);
    DigitsThenEnd(yt);
    if n == 3 {
      ThreeDigits(yt);
    } else {
      HereAfterDay(y, n, []);
      MonthYearNonWs([]);
    }
  }

  // ---- the reference definition on the texts the states stand for ----

  lemma NonDigitFirst(ch: char, s: string, ad: bool)
    requires !IsDigit(ch)
    ensures FirstDate([ch] + s, ad) == FirstDate(s, false)
  {
    assert ([ch] + s)[1..] == s;
  }

  lemma DigitAfterDigit(ch: char, s: string)
    ensures FirstDate([ch] + s, true) == FirstDate(s, IsDigit(ch))
  {
    assert ([ch] + s)[1..] == s;
  }

  lemma NonDigitOrDigit(ch: char, s: string)
    ensures !IsDigit(ch) ==> FirstDate([ch] + s, false) == FirstDate(s, false)
  {
    if !IsDigit(ch) {
      NonDigitFirst(ch, s, false);
    }
  }

  lemma SingleDigit(ch: char)
    requires IsDigit(ch)
    ensures PadDigits(DigitValue(ch), 1) == [ch]
    ensures PadDigits(DigitValue(ch), 1) + [] == [ch]
  {
  }

  lemma PadDigitsAppend(v: nat, n: nat, ch: char)
    requires IsDigit(ch)
    ensures PadDigits(10 * v + DigitValue(ch), n + 1) == PadDigits(v, n) + [ch]
  {
    var w := 10 * v + DigitValue(ch);
    assert w / 10 == v && w % 10 == DigitValue(ch);
  }

  /** Digits in front of ch: the date that starts at the first digit, else the first one after ch. */
  lemma DigitsThen(dt: string, ch: char, s: string)
    requires |dt| >= 1 && forall i :: 0 <= i < |dt| ==> IsDigit(dt[i])
    ensures FirstDate(dt + ([ch] + s), false) == OrElse(DateHere(dt + ([ch] + s)), FirstDate(s, IsDigit(ch)))
  {
    var a := dt[1..] + [ch];
    assert (dt + ([ch] + s))[1..] == a + s;
    assert (dt + ([ch] + s))[0] == dt[0];
    SkipNoStarts(a, s, true);
  }

  /** Digits that end the text start the only date they can. */
  lemma DigitsThenEnd(dt: string)
    requires |dt| >= 1 && forall i :: 0 <= i < |dt| ==> IsDigit(dt[i])
    ensures FirstDate(dt, false) == OrElse(DateHere(dt), None)
  {
    assert dt[1..] + [] == dt[1..];
    SkipNoStarts(dt[1..], [], true);
  }

  /** No date starts at the front of x when a digit precedes it or it does not open with a digit. */
  lemma SkipOne(x: string, ad: bool)
    requires x != [] && (ad || !IsDigit(x[0]))
    ensures FirstDate(x, ad) == FirstDate(x[1..], IsDigit(x[0]))
  {
  }

  /** Positions where no date can start are passed over. */
  lemma {:induction false} SkipNoStarts(a: string, s: string, ad: bool)
    requires a != [] && !ad ==> !IsDigit(a[0])
    requires forall i :: 0 < i < |a| ==> !IsDigit(a[i]) || IsDigit(a[i - 1])
    ensures FirstDate(a + s, ad) == FirstDate(s, if a == [] then ad else IsDigit(a[|a| - 1]))
    decreases |a|
  {
    if a == [] {
      assert a + s == s;
    } else {
      ConcatTail(a, s);
      NoStartsTail(a);
      SkipOne(a + s, ad);
      SkipNoStarts(a[1..], s, IsDigit(a[0]));
    }
  }

  lemma ConcatTail(a: string, s: string)
    requires a != []
    ensures (a + s)[0] == a[0] && (a + s)[1..] == a[1..] + s
  {
  }

  /** The tail of a text where no date can start past its front is such a text too. */
  lemma NoStartsTail(a: string)
    requires a != []
    requires forall i :: 0 < i < |a| ==> !IsDigit(a[i]) || IsDigit(a[i - 1])
    ensures forall i :: 0 < i < |a[1..]| ==> !IsDigit(a[1..][i]) || IsDigit(a[1..][i - 1])
    ensures a[1..] != [] && !IsDigit(a[0]) ==> !IsDigit(a[1..][0])
    ensures a[1..] != [] ==> a[1..][|a[1..]| - 1] == a[|a| - 1]
  {
    var a' := a[1..];
    forall i | 0 < i < |a'| ensures !IsDigit(a'[i]) || IsDigit(a'[i - 1]) {
      assert a'[i] == a[i + 1] && a'[i - 1] == a[i];
    }
  }

  /** No day is two digits and a third. */
  lemma ThreeDigits(s: string)
    requires |s| >= 3 && IsDigit(s[0]) && IsDigit(s[1]) && IsDigit(s[2])
    ensures DateHere(s) == None
  {
    var t := s[2..];
    assert Digits(s, 2).Some?;
    assert DayDigits(s) == Digits(s, 2);
    MonthYearNonWs(t);
    DateHereOf(s, Digits(s, 2).value.0, t);
  }

  /** After the day's digits, the date is what follows the day. */
  lemma DateHereOf(s: string, d: nat, t: string)
    requires DayDigits(s) == Some((d, t))
    ensures DateHere(s) == AfterDay(d, t)
  {
  }

  /** After a day of one or two digits, the date is what follows the day. */
  lemma HereAfterDay(d: nat, n: nat, t: string)
    requires 1 <= n <= 2 && d < Pow10(n) && (t == [] || !IsDigit(t[0]))
    ensures DateHere(PadDigits(d, n) + t) == AfterDay(d, t)
  {
    var s := PadDigits(d, n) + t;
    DigitsOfPad(d, n, t);
    if n == 1 {
      assert Digits(s, 2).None? by {
        if |s| >= 2 {
          assert s[1] == t[0];
        }
      }
    }
    assert DayDigits(s) == Some((d, t));
    DateHereOf(s, d, t);
  }

  /** Whitespace after the day's digits: the date is what whitespace and then a month name complete. */
  lemma DayThenWsHere(d: nat, n: nat, ch: char, s: string)
    requires 1 <= n <= 2 && d < Pow10(n) && IsWs(ch)
    ensures DateHere(PadDigits(d, n) + ([ch] + s)) == AfterDay(d, " " + s)
  {
    HereAfterDay(d, n, [ch] + s);
    MonthYearWs(ch, s);
    MonthYearWs(' ', s);
  }

  /** Anything but a digit or whitespace after the day's digits: no date. */
  lemma DayThenOtherHere(d: nat, n: nat, ch: char, s: string)
    requires 1 <= n <= 2 && d < Pow10(n) && !IsWs(ch) && !IsDigit(ch)
    ensures DateHere(PadDigits(d, n) + ([ch] + s)) == None
  {
    HereAfterDay(d, n, [ch] + s);
    MonthYearNonWs([ch] + s);
  }

  lemma DayThird(d: nat, ch: char, s: string)
    requires d < 100 && IsDigit(ch)
    ensures FirstDate(s, true) == FirstDate(PadDigits(d, 2) + ([ch] + s), false)
  {
    var dt := PadDigits(d, 2);
    DigitsThen(dt, ch, s);
    ThreeDigits(dt + ([ch] + s));
  }

  lemma DayThenWs(d: nat, n: nat, ch: char, s: string)
    requires 1 <= n <= 2 && d < Pow10(n) && IsWs(ch)
    ensures OrElse(AfterDay(d, " " + s), FirstDate(s, false)) == FirstDate(PadDigits(d, n) + ([ch] + s), false)
  {
    DigitsThen(PadDigits(d, n), ch, s);
    DayThenWsHere(d, n, ch, s);
  }

  lemma DayThenOther(d: nat, n: nat, ch: char, s: string)
    requires 1 <= n <= 2 && d < Pow10(n) && !IsWs(ch) && !IsDigit(ch)
    ensures FirstDate(s, false) == FirstDate(PadDigits(d, n) + ([ch] + s), false)
  {
    DigitsThen(PadDigits(d, n), ch, s);
    DayThenOtherHere(d, n, ch, s);
  }

  /** More whitespace before the month changes nothing. */
  lemma SpacesBeforeMonth(ch: char, s: string)
    requires IsWs(ch)
    ensures MonthYear(" " + ([ch] + s)) == MonthYear(" " + s)
  {
    MonthYearWs(' ', [ch] + s);
    MonthYearWs(' ', s);
    TrimLeftWs(ch, s);
  }

  /** More whitespace before the year changes nothing. */
  lemma SpacesBeforeYear(ch: char, s: string)
    requires IsWs(ch)
    ensures YearAfter(" " + ([ch] + s)) == YearAfter(" " + s)
  {
    YearAfterWs(' ', [ch] + s);
    YearAfterWs(' ', s);
    TrimLeftWs(ch, s);
  }

  /** The letters read so far and ch start no month name followed by whitespace. */
  lemma MonthLost(p: string, ch: char, s: string)
    requires 1 <= |p| <= 3 && forall i :: 0 <= i < |p| ==> !IsWs(p[i]) && !IsDigit(p[i])
    requires if |p| < 3 then IsWs(ch) || IsDigit(ch) else !IsWs(ch)
    ensures MonthThenYear(p + ([ch] + s)) == None
  {
    var t := p + ([ch] + s);
    if |p| < 3 {
      assert t[|p|] == ch;
      MonthNoStart(t, |p|);
    } else {
      NameThenNonWs(p, ch, s);
    }
  }

  /** Whitespace after three letters: a month when they name one. */
  lemma MonthComplete(d: nat, p: string, ch: char, s: string)
    requires Valid(Mon(d, p)) && |p| == 3 && IsWs(ch)
    ensures Pending(Step(Mon(d, p), ch), s) == Pending(Mon(d, p), [ch] + s)
  {
    var t := p + ([ch] + s);
    assert t[0] == p[0];
    MonthYearAfterSpace(t);
    NonDigitFirst(ch, s, false);
    MonthNamesDistinct();
    NameFromExtend(p, [ch] + s, MonthNames, 0);
    match NameFrom(p, MonthNames, 0)
    case None =>
      assert Step(Mon(d, p), ch) == Idle(false);
    case Some((k, r)) =>
      assert Step(Mon(d, p), ch) == Gap2(d, k + 1);
      assert MonthNames[k] == p && r == [];
      assert r + ([ch] + s) == [ch] + s;
      MonthThenYearVia(t, k, [ch] + s);
      YearAfterWs(ch, s);
      YearAfterWs(' ', s);
  }

  // ---- the grammar on the texts the states stand for ----

  function YearOutcome(m: nat, r: Option<(nat, string)>): Option<(nat, nat, string)> {
    match r
    case None => None
    case Some((y, rest)) => Some((m, y, rest))
  }

  lemma TrimLeftWs(ch: char, s: string)
    requires IsWs(ch)
    ensures TrimLeft([ch] + s) == TrimLeft(s)
  {
    assert ([ch] + s)[1..] == s;
  }

  lemma MonthYearWs(ch: char, s: string)
    requires IsWs(ch)
    ensures MonthYear([ch] + s) == MonthThenYear(TrimLeft(s))
  {
    TrimLeftWs(ch, s);
  }

  lemma YearAfterWs(ch: char, s: string)
    requires IsWs(ch)
    ensures YearAfter([ch] + s) == Digits(TrimLeft(s), 4)
  {
    TrimLeftWs(ch, s);
  }

  lemma MonthYearNonWs(t: string)
    requires t == [] || !IsWs(t[0])
    ensures MonthYear(t) == None
  {
  }

  lemma YearAfterNonWs(t: string)
    requires t == [] || !IsWs(t[0])
    ensures YearAfter(t) == None
  {
  }

  lemma YearAfterSpace(t: string)
    requires t == [] || !IsWs(t[0])
    ensures YearAfter(" " + t) == Digits(t, 4)
  {
    Ws1OfSpace(t);
  }

  lemma MonthYearAfterSpace(t: string)
    requires t == [] || !IsWs(t[0])
    ensures MonthYear(" " + t) == MonthThenYear(t)
  {
    Ws1OfSpace(t);
  }

  /** Once the month name is read, only the year is left. */
  lemma MonthThenYearVia(t: string, k: nat, u: string)
    requires NameFrom(t, MonthNames, 0) == Some((k, u))
    ensures MonthThenYear(t) == YearOutcome(k + 1, YearAfter(u))
  {
  }

  /** After a day, " " and a month name, only the year is left to read. */
  lemma AfterMonth(d: nat, m: nat, u: string)
    requires 1 <= m <= 12
    ensures AfterDay(d, " " + (MonthNames[m - 1] + u)) == DateEnd(d, YearOutcome(m, YearAfter(u)))
  {
    var t := MonthNames[m - 1] + u;
    assert MonthYear(" " + t) == MonthThenYear(t) by {
      MonthInitial(m);
      assert t[0] == MonthNames[m - 1][0];
      MonthYearAfterSpace(t);
    }
    assert NameFrom(t, MonthNames, 0) == Some((m - 1, u)) by {
      MonthOf(m, u);
    }
    MonthThenYearVia(t, m - 1, u);
  }

  /** A month name followed by anything other than whitespace is no date. */
  lemma NameThenNonWs(p: string, ch: char, s: string)
    requires |p| == 3 && !IsWs(ch)
    ensures MonthThenYear(p + ([ch] + s)) == None
  {
    var t := p + ([ch] + s);
    match NameFrom(t, MonthNames, 0)
    case None =>
    case Some((k, u)) =>
      MonthNamesDistinct();
      assert u == t[3..] == [ch] + s;
      MonthThenYearVia(t, k, u);
      YearAfterNonWs(u);
  }

  lemma MonthLetters()
    ensures forall k, i :: 0 <= k < |MonthNames| && 0 <= i < 3 ==>
      |MonthNames[k]| == 3 && !IsWs(MonthNames[k][i]) && !IsDigit(MonthNames[k][i])
  {
  }

  /** A text whose index i holds whitespace or a digit, i < 3, starts with no month name. */
  lemma MonthNoStart(t: string, i: nat)
    requires i < 3 && i < |t| && (IsWs(t[i]) || IsDigit(t[i]))
    ensures MonthThenYear(t) == None
  {
    MonthLetters();
    NameFromBlocked(t, MonthNames, 0, i);
  }

  lemma {:induction false} NameFromEmpty(names: seq<string>, k: nat)
    requires k <= |names| && forall j :: k <= j < |names| ==> names[j] != []
    ensures NameFrom([], names, k) == None
    decreases |names| - k
  {
    if k < |names| {
      NameFromEmpty(names, k + 1);
    }
  }

  lemma {:induction false} NameFromBlocked(s: string, names: seq<string>, k: nat, i: nat)
    requires k <= |names| && i < |s|
    requires forall j :: k <= j < |names| ==> i < |names[j]| && names[j][i] != s[i]
    ensures NameFrom(s, names, k) == None
    decreases |names| - k
  {
    if k < |names| {
      if |names[k]| <= |s| {
        assert s[..|names[k]|][i] == s[i];
      }
      NameFromBlocked(s, names, k + 1, i);
    }
  }

  /** Names no longer than p are found in p followed by u exactly as in p. */
  lemma {:induction false} NameFromExtend(p: string, u: string, names: seq<string>, k: nat)
    requires k <= |names|
    requires forall j :: k <= j < |names| ==> |names[j]| <= |p|
    ensures NameFrom(p + u, names, k)
      == match NameFrom(p, names, k)
         case None => None
         case Some((j, r)) => Some((j, r + u))
    decreases |names| - k
  {
    if k < |names| {
      var w := |names[k]|;
      assert (p + u)[..w] == p[..w];
      assert (p + u)[w..] == p[w..] + u;
      NameFromExtend(p, u, names, k + 1);
    }
  }

  /** Fewer than four digits and then a non-digit are no year. */
  lemma DigitsShort(y: nat, n: nat, t: string)
    requires n < 4 && (t == [] || !IsDigit(t[0]))
    ensures Digits(PadDigits(y, n) + t, 4) == None
  {
    var s := PadDigits(y, n) + t;
    if |s| >= 4 {
      assert s[n] == t[0];
    }
  }

  // ---- text in which no date begins ----

  /** A capital letter; every month name starts with one. */
  predicate IsUpper(ch: char) {
    'A' <= ch <= 'Z'
  }

  /**
    The digit at index i, if there is one, is followed by a character that is
    not whitespace, or by one whitespace character and then one that is
    neither whitespace nor a capital letter, so that no month name follows.
  */
  predicate Settled(s: string, i: int) {
    0 <= i < |s| && IsDigit(s[i]) ==>
      i + 1 < |s| && (!IsWs(s[i + 1]) || (i + 2 < |s| && !IsWs(s[i + 2]) && !IsUpper(s[i + 2])))
  }

  /** Text in which no date can begin: every digit in it is settled. */
  predicate Quiet(s: string) {
    forall i :: 0 <= i < |s| ==> Settled(s, i)
  }

  /** The scanner states a quiet text can leave behind, given the text still to come. */
  predicate Calm(st: Scan, s: string) {
    match st
    case Idle(_) => true
    case Day(_, _) => s != [] && (!IsWs(s[0]) || (|s| > 1 && !IsWs(s[1]) && !IsUpper(s[1])))
    case Gap1(_) => s != [] && !IsWs(s[0]) && !IsUpper(s[0])
    case Mon(_, p) => p != [] && !IsUpper(p[0])
    case _ => false
  }

  lemma MonthInitials()
    ensures forall k :: 0 <= k < |MonthNames| ==> 0 < |MonthNames[k]| && IsUpper(MonthNames[k][0])
  {
  }

  /** Quiet texts stay quiet when joined. */
  lemma QuietJoin(a: string, b: string)
    requires Quiet(a) && Quiet(b)
    ensures Quiet(a + b)
  {
    var s := a + b;
    forall i | 0 <= i < |s| ensures Settled(s, i) {
      if i < |a| {
        assert Settled(a, i);
        assert s[i] == a[i];
        if i + 1 < |a| {
          assert s[i + 1] == a[i + 1];
        }
        if i + 2 < |a| {
          assert s[i + 2] == a[i + 2];
        }
      } else {
        var j := i - |a|;
        assert Settled(b, j);
        assert s[i] == b[j];
        if j + 1 < |b| {
          assert s[i + 1] == b[j + 1];
        }
        if j + 2 < |b| {
          assert s[i + 2] == b[j + 2];
        }
      }
    }
  }

  lemma QuietTail(s: string)
    requires s != [] && Quiet(s)
    ensures Quiet(s[1..])
  {
    var t := s[1..];
    forall i | 0 <= i < |t| ensures Settled(t, i) {
      {
        assert Settled(s, i + 1);
        assert t[i] == s[i + 1];
        if i + 1 < |t| {
          assert t[i + 1] == s[i + 2];
        }
        if i + 2 < |t| {
          assert t[i + 2] == s[i + 3];
        }
      }
    }
  }

  /** One character of a quiet text keeps the scanner calm. */
  lemma QuietStep(st: Scan, s: string)
    requires Valid(st) && s != [] && Calm(st, s) && Quiet(s)
    ensures Calm(Step(st, s[0]), s[1..])
  {
    var ch := s[0];
    if IsDigit(ch) {
      assert Settled(s, 0);
      assert s[1..][0] == s[1];
      if 2 < |s| {
        assert s[1..][1] == s[2];
      }
    }
    match st
    case Idle(_) =>
    case Day(_, _) =>
      if IsWs(ch) {
        assert s[1..][0] == s[1];
      }
    case Gap1(_) =>
    case Mon(d, p) =>
      if !IsDigit(ch) && |p| == 3 && IsWs(ch) {
        MonthInitials();
        NameFromBlocked(p, MonthNames, 0, 0);
      }
  }

  /** Reading part of a quiet text from a calm state leaves the scanner calm. */
  lemma {:induction false} QuietFeed(st: Scan, s: string, t: string)
    requires Valid(st) && Calm(st, s + t) && Quiet(s + t)
    ensures Calm(Feed(st, s), t)
    decreases |s|
  {
    if s != [] {
      var u := s + t;
      QuietStep(st, u);
      QuietTail(u);
      assert u[0] == s[0] && u[1..] == s[1..] + t;
      QuietFeed(Step(st, s[0]), s[1..], t);
    }
  }

  /** After a quiet text that ends in whitespace the scanner is idle, with no digit behind it. */
  lemma QuietEnd(q: string, w: char)
    requires Quiet(q + [w]) && IsWs(w)
    ensures Feed(Idle(false), q + [w]) == Idle(false)
  {
    QuietFeed(Idle(false), q, [w]);
    FeedConcat(Idle(false), q, [w]);
    CalmWs(Feed(Idle(false), q), w);
  }

  lemma LastSplit(p: string)
    requires p != []
    ensures p == p[..|p| - 1] + [p[|p| - 1]]
  {
  }

  /** Whitespace sends a calm scanner back to idle. */
  lemma CalmWs(st: Scan, w: char)
    requires Valid(st) && Calm(st, [w]) && IsWs(w)
    ensures Feed(st, [w]) == Idle(false)
  {
    assert [w][0] == w && [w][1..] == [];
    match st
    case Idle(_) =>
    case Mon(d, m) =>
      if |m| == 3 {
        MonthInitials();
        NameFromBlocked(m, MonthNames, 0, 0);
      }
  }

  /** A quiet text ending in whitespace hides no date: the first date of p + s is that of s. */
  lemma QuietSkip(p: string, s: string)
    requires p != [] && Quiet(p) && IsWs(p[|p| - 1])
    ensures FirstDate(p + s, false) == FirstDate(s, false)
  {
    ScanFindsFirst(p + s);
    ScanFindsFirst(s);
    FeedConcat(Idle(false), p, s);
    LastSplit(p);
    QuietEnd(p[..|p| - 1], p[|p| - 1]);
  }

  /** A text that starts with "DD Mon YYYY", and goes on with no digit, shows that date first. */
  lemma DateFirst(day: nat, month: nat, year: nat, rest: string)
    requires day < 100 && 1 <= month <= 12 && year < 10000
    requires rest != [] ==> !IsDigit(rest[0])
    ensures FirstDate(PadDigits(day, 2) + (" " + (MonthNames[month - 1] + (" " + (PadDigits(year, 4) + rest)))), false)
      == Some((day, month, year))
  {
    DatePartOf(day, month, year, rest);
    DateHereFirst(PadDigits(day, 2) + (" " + (MonthNames[month - 1] + (" " + (PadDigits(year, 4) + rest)))));
  }

  /** A date read at the very front of the text is its first date. */
  lemma DateHereFirst(s: string)
    requires DatePart(s).Some?
    requires var rest := DatePart(s).value.3; rest != [] ==> !IsDigit(rest[0])
    ensures FirstDate(s, false) == Some((DatePart(s).value.0, DatePart(s).value.1, DatePart(s).value.2))
  {
  }
}
