/**
  The Received lines whose fields the behaviour of the field is pinned by.
  Each line is written as the text it is, in pieces short enough to reason
  about; each lemma states what the field built from it holds: its name,
  value, routing information, date, formatted date, decoded value and header
  line.
*/
module Scenarios {
  import opened Wrappers
  import opened Text
  import opened Calendar
  import opened Lexical
  import opened Comments
  import opened Splitter
  import opened DateGrammar
  import opened DateParser
  import opened DateFormat
  import opened Fallback
  import opened Received

  // ---- reading pieces of text at top level ----

  /** No character of s opens a quoted string, a domain literal or a comment. */
  predicate Bare(s: string) {
    forall i :: 0 <= i < |s| ==> s[i] != '"' && s[i] != '[' && s[i] != '('
  }

  /** ch does not occur in s. */
  predicate Avoids(s: string, ch: char) {
    forall i :: 0 <= i < |s| ==> s[i] != ch
  }

  lemma {:induction false} BareRun(s: string)
    requires Bare(s)
    ensures Run(Top, s) == Top
    decreases |s|
  {
    if s != [] {
      assert Bare(s[1..]) by {
        forall i | 0 <= i < |s| - 1 ensures s[1..][i] == s[i + 1] { }
      }
      BareRun(s[1..]);
    }
  }

  /** A piece with nothing in it that opens a token, and no colon. */
  lemma PlainPiece(s: string)
    requires Bare(s) && Avoids(s, ':')
    ensures Run(Top, s) == Top && ':' !in s
  {
    BareRun(s);
  }

  /** One comment, with nothing inside it that nests or quotes, and no colon. */
  lemma CommentPiece(s: string)
    requires |s| >= 2 && s[0] == '(' && s[|s| - 1] == ')'
    requires forall i :: 1 <= i < |s| - 1 ==> s[i] != '(' && s[i] != ')' && s[i] != '\\'
    requires Avoids(s, ':')
    ensures Run(Top, s) == Top && ':' !in s
  {
    var text := s[1..|s| - 1];
    assert IsCommentText(text) by {
      forall i | 0 <= i < |text| ensures text[i] != '(' && text[i] != ')' && text[i] != '\\' {
        assert text[i] == s[i + 1];
      }
    }
    assert s == ("(" + text) + ")";
    RunConcat(Top, "(" + text, ")");
    RunConcat(Top, "(", text);
    RunCommentText(1, text);
  }

  lemma CommentTextJoin(a: string, b: string)
    requires IsCommentText(a) && IsCommentText(b)
    ensures IsCommentText(a + b)
  {
    forall i | 0 <= i < |a + b| ensures (a + b)[i] != '(' && (a + b)[i] != ')' && (a + b)[i] != '\\' {
      if i < |a| {
        assert (a + b)[i] == a[i];
      } else {
        assert (a + b)[i] == b[i - |a|];
      }
    }
  }

  lemma CommentRegroup(a: string, b: string, c: string)
    ensures "(" + a + b + c + ")" == ("(" + (a + b + c)) + ")"
  {
  }

  /** A comment whose text is made of pieces that neither nest, close nor quote. */
  lemma CommentOfTexts(a: string, b: string, c: string)
    requires IsCommentText(a) && IsCommentText(b) && IsCommentText(c)
    ensures Run(Top, "(" + a + b + c + ")") == Top
  {
    CommentTextJoin(a, b);
    CommentTextJoin(a + b, c);
    CommentRegroup(a, b, c);
    RunConcat(Top, "(" + (a + b + c), ")");
    RunConcat(Top, "(", a + b + c);
    RunCommentText(1, a + b + c);
  }

  lemma {:induction false} RunLiteralText(s: string)
    requires Avoids(s, ']')
    ensures Run(Literal, s) == Literal
    decreases |s|
  {
    if s != [] {
      assert Avoids(s[1..], ']') by {
        forall i | 0 <= i < |s| - 1 ensures s[1..][i] == s[i + 1] { }
      }
      RunLiteralText(s[1..]);
    }
  }

  /** One domain literal "[...]", and no colon. */
  lemma LiteralPiece(s: string)
    requires |s| >= 2 && s[0] == '[' && s[|s| - 1] == ']'
    requires forall i :: 1 <= i < |s| - 1 ==> s[i] != ']' && s[i] != ':'
    ensures Run(Top, s) == Top && ':' !in s
  {
    var text := s[1..|s| - 1];
    assert Avoids(text, ']') by {
      forall i | 0 <= i < |text| ensures text[i] != ']' {
        assert text[i] == s[i + 1];
      }
    }
    assert s == ("[" + text) + "]";
    RunConcat(Top, "[" + text, "]");
    RunConcat(Top, "[", text);
    RunLiteralText(text);
    assert ':' !in s by {
      forall i | 0 <= i < |s| ensures s[i] != ':' { }
    }
  }

  lemma RunTopConcat(a: string, b: string)
    requires Run(Top, a) == Top && Run(Top, b) == Top
    ensures Run(Top, a + b) == Top
  {
    RunConcat(Top, a, b);
  }

  /** Pieces that each read back to top level and hold no colon: together they do too. */
  lemma JoinPieces(a: string, b: string)
    requires Run(Top, a) == Top && ':' !in a
    requires Run(Top, b) == Top && ':' !in b
    ensures Run(Top, a + b) == Top && ':' !in a + b
  {
    RunConcat(Top, a, b);
  }

  /** Seven pieces that each read back to top level and hold no colon make routing information. */
  lemma RoutingOfPieces(a: string, b: string, c: string, d: string, e: string, f: string, g: string)
    requires Run(Top, a) == Top && ':' !in a && Run(Top, b) == Top && ':' !in b
    requires Run(Top, c) == Top && ':' !in c && Run(Top, d) == Top && ':' !in d
    requires Run(Top, e) == Top && ':' !in e && Run(Top, f) == Top && ':' !in f
    requires Run(Top, g) == Top && ':' !in g
    requires a != [] && !IsWs(a[0]) && g != [] && !IsWs(g[|g| - 1])
    ensures RoutingInfo(a + b + c + d + e + f + g)
  {
    var s := a + b + c + d + e + f + g;
    JoinPieces(a, b);
    JoinPieces(a + b, c);
    JoinPieces(a + b + c, d);
    JoinPieces(a + b + c + d, e);
    JoinPieces(a + b + c + d + e, f);
    JoinPieces(a + b + c + d + e + f, g);
    assert s[0] == a[0];
    assert s[|s| - 1] == g[|g| - 1];
    RoutingOfText(s);
  }

  /** A text that reads back to top level, holds no colon and has no whitespace at either end is routing information. */
  lemma RoutingOfText(s: string)
    requires Run(Top, s) == Top && ':' !in s
    requires s != [] && !IsWs(s[0]) && !IsWs(s[|s| - 1])
    ensures RoutingInfo(s)
  {
    LastTopAbsent(Top, s, ':');
  }

  /** The ends of a + m + b are the start of a and the end of b. */
  lemma EndsOf(a: string, m: string, b: string)
    requires a != [] && b != []
    ensures (a + m + b)[0] == a[0] && (a + m + b)[|a + m + b| - 1] == b[|b| - 1]
  {
  }

  // ---- the routing information of the Postfix line ----

  const PostfixInfo: string := "from localhost " + "(localhost [127.0.0.1])" + " by xxx.xxxxx.com "
    + "(Postfix)" + " with ESMTP " + "id 50FD3A96F " + "for <xxxx@xxxx.com>"

  lemma Postfix1() ensures Run(Top, "from localhost ") == Top && ':' !in "from localhost " {
    PlainPiece("from localhost ");
  }
  lemma Postfix2() ensures Run(Top, "(localhost [127.0.0.1])") == Top && ':' !in "(localhost [127.0.0.1])" {
    CommentPiece("(localhost [127.0.0.1])");
  }
  lemma Postfix3() ensures Run(Top, " by xxx.xxxxx.com ") == Top && ':' !in " by xxx.xxxxx.com " {
    PlainPiece(" by xxx.xxxxx.com ");
  }
  lemma Postfix4() ensures Run(Top, "(Postfix)") == Top && ':' !in "(Postfix)" {
    CommentPiece("(Postfix)");
  }
  lemma Postfix5() ensures Run(Top, " with ESMTP ") == Top && ':' !in " with ESMTP " {
    PlainPiece(" with ESMTP ");
  }
  lemma Postfix6() ensures Run(Top, "id 50FD3A96F ") == Top && ':' !in "id 50FD3A96F " {
    PlainPiece("id 50FD3A96F ");
  }
  lemma Postfix7() ensures Run(Top, "for <xxxx@xxxx.com>") == Top && ':' !in "for <xxxx@xxxx.com>" {
    PlainPiece("for <xxxx@xxxx.com>");
  }

  lemma PostfixEnds()
    ensures !IsWs("from localhost "[0]) && !IsWs("for <xxxx@xxxx.com>"[|"for <xxxx@xxxx.com>"| - 1])
  {
  }

  lemma PostfixRouting()
    ensures RoutingInfo(PostfixInfo)
  {
    Postfix1(); Postfix2(); Postfix3(); Postfix4(); Postfix5(); Postfix6(); Postfix7();
    PostfixEnds();
    RoutingOfPieces("from localhost ", "(localhost [127.0.0.1])", " by xxx.xxxxx.com ", "(Postfix)",
      " with ESMTP ", "id 50FD3A96F ", "for <xxxx@xxxx.com>");
  }

  // ---- rendering a date clause piece by piece ----

  /** A calendar date as the grammar writes it: "DD Mon YYYY". */
  function DateWords(day: nat, month: nat, year: nat): string
    requires 1 <= month <= 12
  {
    PadDigits(day, 2) + " " + MonthNames[month - 1] + " " + PadDigits(year, 4)
  }

  /** A rendered clause is its weekday, its date, a space, and its time and zone. */
  lemma RenderOf(c: DateSyntax, weekday: string, date: string, clock: string)
    requires WellFormed(c) && WeekdayText(c.weekday) == weekday
    requires DateWords(c.day, c.month, c.year) == date && ClockText(c) == clock
    ensures RenderSyntax(c) == weekday + date + " " + clock
  {
  }

  /** A rendered clause without a weekday is its date, a space, and its time and zone. */
  lemma RenderPlain(c: DateSyntax, date: string, clock: string)
    requires WellFormed(c) && c.weekday.None?
    requires DateWords(c.day, c.month, c.year) == date && ClockText(c) == clock
    ensures RenderSyntax(c) == date + " " + clock
  {
    RenderOf(c, "", date, clock);
    assert "" + date == date;
  }

  lemma CommentedRegroup(info: string, date: string, zone: string)
    ensures info + "; " + date + " (" + zone + ")" == info + ";" + " " + date + " " + "(" + zone + ")"
    ensures info + "; " + date == info + ";" + " " + date
  {
  }

  /** A line "info; date" whose date is a rendered clause: the structured reading, with the ';' and one space. */
  lemma DatedLine(info: string, date: string, c: DateSyntax)
    requires RoutingInfo(info) && WellFormed(c) && RenderSyntax(c) == date
    ensures NewField(info + "; " + date).info == info
    ensures NewField(info + "; " + date).dateTime == (if InRange(c) then Some(ToTimestamp(c)) else None)
    ensures !InRange(c) ==> FormattedDate(NewField(info + "; " + date)).None?
  {
    assert info + "; " + date == info + ";" + " " + date;
    StructuredValue(info, " ", c);
  }

  // ---- the Postfix line, in +0000 and in -0500 ----

  const PostfixDate: string := "Tue, " + "10 May 2005" + " " + "17:26:50 +0000"
  const PostfixSyntax: DateSyntax := DateSyntax(Some(2), 10, 5, 2005, 17, 26, Some(50), false, 0, 0)
  const PostfixValue: string := PostfixInfo + "; " + PostfixDate + " (GMT)"

  lemma PostfixRange()
    ensures WellFormed(PostfixSyntax) && InRange(PostfixSyntax)
  {
  }

  lemma PostfixDay()
    ensures WellFormed(PostfixSyntax) && WeekdayText(PostfixSyntax.weekday) == "Tue, "
    ensures DateWords(PostfixSyntax.day, PostfixSyntax.month, PostfixSyntax.year) == "10 May 2005"
  {
  }

  lemma PostfixClock()
    ensures WellFormed(PostfixSyntax) && ClockText(PostfixSyntax) == "17:26:50 +0000"
  {
  }

  lemma PostfixRender()
    ensures WellFormed(PostfixSyntax) && RenderSyntax(PostfixSyntax) == PostfixDate
  {
    PostfixDay();
    PostfixClock();
    RenderOf(PostfixSyntax, "Tue, ", "10 May 2005", "17:26:50 +0000");
  }

  lemma PostfixRegroup()
    ensures PostfixValue == PostfixInfo + ";" + " " + PostfixDate + " " + "(" + "GMT" + ")"
    ensures PostfixInfo + "; " + PostfixDate == PostfixInfo + ";" + " " + PostfixDate
  {
    CommentedRegroup(PostfixInfo, PostfixDate, "GMT");
    assert " (GMT)" == " (" + "GMT" + ")";
  }

  /**
    The Postfix line: its routing information is everything before the ';',
    comments and the bracketed address included; its date is 10 May 2005
    17:26:50 at the literal offset +0000; decoding drops the zone comment
    "(GMT)" and nothing else, and the header line is that, framed.
  */
  lemma PostfixLine()
    ensures Name(NewField(PostfixValue)) == "Received" && NewField(PostfixValue).value == PostfixValue
    ensures NewField(PostfixValue).info == PostfixInfo
    ensures NewField(PostfixValue).dateTime == Some(DateTime(2005, 5, 10, 17, 26, 50, 0))
    ensures Decoded(NewField(PostfixValue)) == PostfixInfo + "; " + PostfixDate
    ensures Encoded(NewField(PostfixValue)) == "Received: " + (PostfixInfo + "; " + PostfixDate) + "\r\n"
  {
    PostfixRouting();
    PostfixRange();
    PostfixRender();
    PostfixRegroup();
    StructuredValueWithComment(PostfixInfo, " ", PostfixSyntax, " ", "GMT");
  }

  const UtcSyntax: DateSyntax := DateSyntax(None, 10, 5, 2005, 17, 26, Some(50), false, 0, 0)

  lemma UtcPieces()
    ensures WellFormed(UtcSyntax) && InRange(UtcSyntax) && WeekdayText(UtcSyntax.weekday) == ""
    ensures DateWords(UtcSyntax.day, UtcSyntax.month, UtcSyntax.year) == "10 May 2005"
  {
  }

  lemma UtcClock()
    ensures WellFormed(UtcSyntax) && ClockText(UtcSyntax) == "17:26:50 +0000"
  {
  }

  const UtcDate: string := "10 May 2005" + " " + "17:26:50 +0000"

  lemma UtcRender()
    ensures WellFormed(UtcSyntax) && InRange(UtcSyntax) && RenderSyntax(UtcSyntax) == UtcDate
  {
    UtcPieces();
    UtcClock();
    RenderPlain(UtcSyntax, "10 May 2005", "17:26:50 +0000");
  }

  /** The same date without its weekday, with its zone comment, reads as the same timestamp. */
  lemma PostfixDateAlone()
    ensures ParseDateTime(UtcDate + " (GMT)") == Some(DateTime(2005, 5, 10, 17, 26, 50, 0))
  {
    UtcRender();
    assert UtcDate + " (GMT)" == UtcDate + " " + "(" + "GMT" + ")";
    ParseRenderedWithComment(UtcSyntax, " ", "GMT");
  }

  const EstDate: string := "Tue, " + "10 May 2005" + " " + "17:26:50 -0500"
  const EstSyntax: DateSyntax := DateSyntax(Some(2), 10, 5, 2005, 17, 26, Some(50), true, 5, 0)
  const EstValue: string := PostfixInfo + "; " + EstDate + " (EST)"

  lemma EstRange()
    ensures WellFormed(EstSyntax) && InRange(EstSyntax)
  {
  }

  lemma EstDay()
    ensures WellFormed(EstSyntax) && WeekdayText(EstSyntax.weekday) == "Tue, "
    ensures DateWords(EstSyntax.day, EstSyntax.month, EstSyntax.year) == "10 May 2005"
  {
  }

  lemma EstClock()
    ensures WellFormed(EstSyntax) && ClockText(EstSyntax) == "17:26:50 -0500"
  {
  }

  lemma EstRender()
    ensures WellFormed(EstSyntax) && RenderSyntax(EstSyntax) == EstDate
  {
    EstDay();
    EstClock();
    RenderOf(EstSyntax, "Tue, ", "10 May 2005", "17:26:50 -0500");
  }

  lemma EstRegroup()
    ensures EstValue == PostfixInfo + ";" + " " + EstDate + " " + "(" + "EST" + ")"
    ensures PostfixInfo + "; " + EstDate == PostfixInfo + ";" + " " + EstDate
  {
    CommentedRegroup(PostfixInfo, EstDate, "EST");
    assert " (EST)" == " (" + "EST" + ")";
  }

  /** The Postfix line at -0500: the offset stays -300 minutes, and the header line keeps "-0500". */
  lemma EstLine()
    ensures NewField(EstValue).info == PostfixInfo
    ensures NewField(EstValue).dateTime == Some(DateTime(2005, 5, 10, 17, 26, 50, -300))
    ensures Encoded(NewField(EstValue)) == "Received: " + (PostfixInfo + "; " + EstDate) + "\r\n"
  {
    PostfixRouting();
    EstRange();
    EstRender();
    EstRegroup();
    StructuredValueWithComment(PostfixInfo, " ", EstSyntax, " ", "EST");
  }

  // ---- the qmail line: the routing information is one comment ----

  const QmailInfo: string := "(qmail 24365 invoked by uid 99)"
  const QmailDate: string := "25 Jan 2011" + " " + "12:31:11 -0000"
  const QmailSyntax: DateSyntax := DateSyntax(None, 25, 1, 2011, 12, 31, Some(11), true, 0, 0)
  const QmailValue: string := QmailInfo + "; " + QmailDate

  lemma QmailPiece()
    ensures Run(Top, QmailInfo) == Top && ':' !in QmailInfo
  {
    CommentPiece(QmailInfo);
  }

  lemma QmailEnds()
    ensures QmailInfo != [] && !IsWs(QmailInfo[0]) && !IsWs(QmailInfo[|QmailInfo| - 1])
  {
  }

  lemma QmailRouting()
    ensures RoutingInfo(QmailInfo)
  {
    QmailPiece();
    QmailEnds();
    RoutingOfText(QmailInfo);
  }

  lemma QmailRange()
    ensures WellFormed(QmailSyntax) && InRange(QmailSyntax)
    ensures ToTimestamp(QmailSyntax) == DateTime(2011, 1, 25, 12, 31, 11, 0)
  {
  }

  lemma QmailPieces()
    ensures WellFormed(QmailSyntax) && WeekdayText(QmailSyntax.weekday) == ""
    ensures DateWords(QmailSyntax.day, QmailSyntax.month, QmailSyntax.year) == "25 Jan 2011"
  {
  }

  lemma QmailClock()
    ensures WellFormed(QmailSyntax) && ClockText(QmailSyntax) == "12:31:11 -0000"
  {
  }

  lemma QmailRender()
    ensures WellFormed(QmailSyntax) && RenderSyntax(QmailSyntax) == QmailDate
  {
    QmailPieces();
    QmailClock();
    RenderPlain(QmailSyntax, "25 Jan 2011", "12:31:11 -0000");
  }

  /** A comment alone is routing information: the qmail line keeps it whole, and "-0000" is offset 0. */
  lemma QmailLine()
    ensures NewField(QmailValue).info == QmailInfo
    ensures NewField(QmailValue).dateTime == Some(DateTime(2011, 1, 25, 12, 31, 11, 0))
  {
    QmailRouting();
    QmailRange();
    QmailRender();
    DatedLine(QmailInfo, QmailDate, QmailSyntax);
  }

  // ---- the blank value ----

  /** An empty value has empty information, no date, decodes to nothing and encodes to a bare header. */
  lemma BlankLine()
    ensures Decoded(NewField("")) == "" && Encoded(NewField("")) == "Received: \r\n"
    ensures NewField("").info == "" && NewField("").dateTime.None?
  {
    BlankValue("");
  }

  // ---- a date with no separator ----

  const DateOnlyValue: string := "10 May 2005 17:26"

  /**
    A value with no ';' is all routing information, colon and all, and has
    an empty clause, so it has no date.
  */
  lemma DateOnlyLine()
    ensures NewField(DateOnlyValue).info == DateOnlyValue && NewField(DateOnlyValue).dateTime.None?
  {
    DateOnlySplit();
    EmptyClause();
  }

  lemma DateOnlySplit()
    ensures Split(DateOnlyValue) == Structured(DateOnlyValue, "")
  {
    DateOnlyFacts();
    LastTopAbsent(Top, DateOnlyValue, ';');
    TrimOfTrimmed(DateOnlyValue);
    NoSeparator(DateOnlyValue);
  }

  lemma DateOnlyFacts()
    ensures ';' !in DateOnlyValue && IsTrimmed(DateOnlyValue) && DateOnlyValue[|DateOnlyValue| - 1] == '6'
  {
    assert DateOnlyValue[0] == '1';
  }

  lemma EmptyClause()
    ensures ParseDateTime("").None?
  {
    BlankValue("");
    SplitBlank("");
  }

  // ---- an hour out of range ----

  const InvalidInfo: string := "mail.example.com " + "(192.168.1.1)" + " by mail.example.com with "
    + "(esmtp)" + " id " + "(qid)" + "  for <foo@example.com>"
  const InvalidDate: string := "Mon, " + "29 Jul 2013" + " " + "25:12:46 +0900"
  const InvalidSyntax: DateSyntax := DateSyntax(Some(1), 29, 7, 2013, 25, 12, Some(46), false, 9, 0)
  const InvalidValue: string := InvalidInfo + "; " + InvalidDate

  lemma Invalid1() ensures Run(Top, "mail.example.com ") == Top && ':' !in "mail.example.com " {
    PlainPiece("mail.example.com ");
  }
  lemma Invalid2() ensures Run(Top, "(192.168.1.1)") == Top && ':' !in "(192.168.1.1)" {
    CommentPiece("(192.168.1.1)");
  }
  lemma Invalid3() ensures Run(Top, " by mail.example.com with ") == Top && ':' !in " by mail.example.com with " {
    PlainPiece(" by mail.example.com with ");
  }
  lemma Invalid4() ensures Run(Top, "(esmtp)") == Top && ':' !in "(esmtp)" {
    CommentPiece("(esmtp)");
  }
  lemma Invalid5() ensures Run(Top, " id ") == Top && ':' !in " id " {
    PlainPiece(" id ");
  }
  lemma Invalid6() ensures Run(Top, "(qid)") == Top && ':' !in "(qid)" {
    CommentPiece("(qid)");
  }
  lemma Invalid7() ensures Run(Top, "  for <foo@example.com>") == Top && ':' !in "  for <foo@example.com>" {
    PlainPiece("  for <foo@example.com>");
  }

  lemma InvalidEnds()
    ensures !IsWs("mail.example.com "[0]) && !IsWs("  for <foo@example.com>"[|"  for <foo@example.com>"| - 1])
  {
  }

  lemma InvalidRouting()
    ensures RoutingInfo(InvalidInfo)
  {
    Invalid1(); Invalid2(); Invalid3(); Invalid4(); Invalid5(); Invalid6(); Invalid7();
    InvalidEnds();
    RoutingOfPieces("mail.example.com ", "(192.168.1.1)", " by mail.example.com with ", "(esmtp)",
      " id ", "(qid)", "  for <foo@example.com>");
  }

  lemma InvalidRange()
    ensures WellFormed(InvalidSyntax) && !InRange(InvalidSyntax)
  {
  }

  lemma InvalidDay()
    ensures WellFormed(InvalidSyntax) && WeekdayText(InvalidSyntax.weekday) == "Mon, "
    ensures DateWords(InvalidSyntax.day, InvalidSyntax.month, InvalidSyntax.year) == "29 Jul 2013"
  {
  }

  lemma InvalidClock()
    ensures WellFormed(InvalidSyntax) && ClockText(InvalidSyntax) == "25:12:46 +0900"
  {
  }

  lemma InvalidRender()
    ensures WellFormed(InvalidSyntax) && RenderSyntax(InvalidSyntax) == InvalidDate
  {
    InvalidDay();
    InvalidClock();
    RenderOf(InvalidSyntax, "Mon, ", "29 Jul 2013", "25:12:46 +0900");
  }

  /**
    Hour 25 is out of range: the value is still cut at its ';', so the
    information is kept, but there is no date and no formatted date.
  */
  lemma InvalidLine()
    ensures Name(NewField(InvalidValue)) == "Received" && NewField(InvalidValue).value == InvalidValue
    ensures NewField(InvalidValue).info == InvalidInfo
    ensures NewField(InvalidValue).dateTime.None? && FormattedDate(NewField(InvalidValue)).None?
  {
    InvalidRouting();
    InvalidRange();
    InvalidRender();
    DatedLine(InvalidInfo, InvalidDate, InvalidSyntax);
  }

  // ---- values that do not classify: the date is searched for in the raw text ----

  /** Quiet pieces make a quiet text. */
  lemma QuietOfPieces(a: string, b: string, c: string, d: string, e: string)
    requires Quiet(a) && Quiet(b) && Quiet(c) && Quiet(d) && Quiet(e)
    ensures Quiet(a + b + c + d + e)
  {
    QuietJoin(a, b);
    QuietJoin(a + b, c);
    QuietJoin(a + b + c, d);
    QuietJoin(a + b + c + d, e);
  }

  /** "DD Mon YYYY" and what follows it, nested as the date grammar reads it. */
  lemma WordsNested(day: nat, month: nat, year: nat, rest: string)
    requires 1 <= month <= 12
    ensures DateWords(day, month, year) + rest
      == PadDigits(day, 2) + (" " + (MonthNames[month - 1] + (" " + (PadDigits(year, 4) + rest))))
  {
  }

  /** A date that follows a quiet lead and is not run on into a digit is the first date of the text. */
  lemma DateAfterQuiet(lead: string, day: nat, month: nat, year: nat, rest: string)
    requires lead != [] && Quiet(lead) && IsWs(lead[|lead| - 1])
    requires day < 100 && 1 <= month <= 12 && year < 10000
    requires rest != [] && !IsDigit(rest[0])
    ensures FirstDate(lead + (DateWords(day, month, year) + rest), false) == Some((day, month, year))
  {
    QuietSkip(lead, DateWords(day, month, year) + rest);
    WordsNested(day, month, year, rest);
    DateFirst(day, month, year, rest);
  }

  /** An unclassified value whose first date is a calendar date has that date at midnight +0000. */
  lemma FallbackLine(value: string, day: nat, month: nat, year: nat)
    requires Split(value).Unstructured?
    requires FirstDate(value, false) == Some((day, month, year)) && year <= 9999 && IsValidDate(year, month, day)
    ensures NewField(value).info == []
    ensures NewField(value).dateTime == Some(DateTime(year, month, day, 0, 0, 0, 0))
    ensures FormattedDate(NewField(value))
      == Some(DayNames[Weekday(year, month, day)] + ", " + DateWords(day, month, year) + " 00:00:00 +0000")
  {
    FallbackOfFirst(value, day, month, year);
    FallbackFormatted(value);
    FormattedRegroup(DayNames[Weekday(year, month, day)], PadDigits(day, 2), MonthNames[month - 1],
      PadDigits(year, 4));
  }

  lemma FormattedRegroup(w: string, d: string, m: string, y: string)
    ensures w + ", " + d + " " + m + " " + y + " 00:00:00 +0000"
      == w + ", " + (d + " " + m + " " + y) + " 00:00:00 +0000"
  {
  }

  lemma FallbackOfFirst(value: string, day: nat, month: nat, year: nat)
    requires Split(value).Unstructured?
    requires FirstDate(value, false) == Some((day, month, year)) && year <= 9999 && IsValidDate(year, month, day)
    ensures !Classifies(Trim(value)) && NewField(value).info == []
    ensures NewField(value).dateTime == Some(DateTime(year, month, day, 0, 0, 0, 0))
  {
    var r := FallbackDate(value);
    assert r.Some?;
    assert r.value == DateTime(year, month, day, 0, 0, 0, 0);
  }

  const ColonBy: string := "by 2002"
  const ColonHost: string := "a05:7000:108d:0:0:0:0 with "
  const ColonId: string := "SMTP id y13csp23744073wrw"
  const ColonDay: string := "\nWed, "
  const ColonDate: string := "13 Mar 2019"
  const ColonTime: string := " 14:50:05 -0700 "
  const ColonZone: string := "(PDT)"
  const ColonRest: string := ColonHost + ColonId
  const ColonClause: string := ColonDay + ColonDate + ColonTime + ColonZone
  /** The routing information holds colons, as an IPv6 address writes them. */
  const ColonValue: string := ColonBy + ":" + ColonRest + ";" + ColonClause
  const ColonLead: string := ColonBy + ":" + ColonHost + ColonId + ";" + ColonDay

  lemma ColonRun1() ensures Run(Top, ColonBy) == Top { BareRun(ColonBy); }
  lemma ColonRun2() ensures Run(Top, ":") == Top { BareRun(":"); }
  lemma ColonRun3() ensures Run(Top, ColonHost) == Top { BareRun(ColonHost); }
  lemma ColonRun4() ensures Run(Top, ColonId) == Top { BareRun(ColonId); }
  lemma ColonQuiet1() ensures Quiet(ColonBy + ":") { }
  lemma ColonQuiet2() ensures Quiet(ColonHost) { }
  lemma ColonQuiet3() ensures Quiet(ColonId) { }
  lemma ColonQuiet4() ensures Quiet(";") && Quiet(ColonDay) && ColonDay != [] && IsWs(ColonDay[|ColonDay| - 1]) { }
  lemma ColonWords() ensures DateWords(13, 3, 2019) == ColonDate { }
  lemma ColonNoSemicolon() ensures ';' !in ColonDay && ';' !in ColonDate && ';' !in ColonTime && ';' !in ColonZone { }
  lemma ColonTimeStart() ensures ColonTime != [] && !IsDigit(ColonTime[0]) { }
  lemma ColonCalendar() ensures IsValidDate(2019, 3, 13) && DayNames[Weekday(2019, 3, 13)] + ", " == "Wed, " { }
  lemma ColonEnds() ensures IsTrimmed(ColonValue) {
    assert ColonValue[0] == 'b' && ColonValue[|ColonValue| - 1] == ')';
  }

  /** A colon between top-level pieces, before a ';' and a clause without one: the shape of ColonValue. */
  lemma ColonShape(a: string, h: string, i: string, clause: string)
    requires Run(Top, a) == Top && Run(Top, ":") == Top && Run(Top, h) == Top && Run(Top, i) == Top
    requires ';' !in clause && IsTrimmed(a + ":" + (h + i) + ";" + clause)
    ensures Split(a + ":" + (h + i) + ";" + clause) == Unstructured(a + ":" + (h + i) + ";" + clause)
  {
    RunTopConcat(h, i);
    RunTopConcat(a, ":");
    RunTopConcat(a + ":", h + i);
    LastTopAbsent(Top, clause, ';');
    ColonUnstructured(a, h + i, clause);
  }

  lemma ColonSplit()
    ensures Split(ColonValue) == Unstructured(ColonValue)
  {
    ColonRun1(); ColonRun2(); ColonRun3(); ColonRun4();
    ColonNoSemicolon();
    ColonEnds();
    ColonShape(ColonBy, ColonHost, ColonId, ColonClause);
  }

  lemma Regroup9(a: string, b: string, c: string, d: string, e: string, f: string, g: string, h: string, k: string)
    ensures a + b + (c + d) + e + (f + g + h + k) == (a + b + c + d + e + f) + (g + (h + k))
  {
  }

  lemma ColonFirstDate()
    ensures FirstDate(ColonValue, false) == Some((13, 3, 2019))
  {
    ColonQuiet1(); ColonQuiet2(); ColonQuiet3(); ColonQuiet4();
    ColonWords(); ColonTimeStart();
    QuietOfPieces(ColonBy + ":", ColonHost, ColonId, ";", ColonDay);
    Regroup9(ColonBy, ":", ColonHost, ColonId, ";", ColonDay, ColonDate, ColonTime, ColonZone);
    DateAfterQuiet(ColonLead, 13, 3, 2019, ColonTime + ColonZone);
  }

  /**
    A colon at top level in the routing information: the value does not
    classify, so there is no routing information, and the date is the first
    one in the raw text, 13 Mar 2019, at midnight +0000; its weekday is
    recomputed from the date.
  */
  lemma ColonLine()
    ensures Name(NewField(ColonValue)) == "Received" && NewField(ColonValue).value == ColonValue
    ensures NewField(ColonValue).info == ""
    ensures NewField(ColonValue).dateTime == Some(DateTime(2019, 3, 13, 0, 0, 0, 0))
    ensures FormattedDate(NewField(ColonValue)) == Some("Wed, " + ColonDate + " 00:00:00 +0000")
  {
    ColonSplit();
    ColonFirstDate();
    ColonCalendar();
    ColonWords();
    FallbackLine(ColonValue, 13, 3, 2019);
  }

  // ---- a stray apostrophe at the end of the value ----

  const ApFrom: string := "from "
  const ApHost: string := "[192.168.1.186]"
  const ApSpace: string := " "
  const ApAddr: string := "([206.248.139.39])"
  const ApBy: string := " by mx.google.com with ESMTPSA id "
  const ApId1: string := "m10sm4741360qae."
  const ApId2: string := "12.2013.08.06.07.40.15 for "
  const ApFor: string := "<multiple recipients> "
  const ApNote: string := "(" + "version=" + "TLSv1 cipher=" + "RC4-SHA bits=128/128" + ")"
  const ApDay: string := "; Tue, "
  const ApDate: string := "06 Aug 2013"
  const ApTime: string := " 07:40:18 -0700 "
  const ApZone: string := "(PDT)"
  const ApLead: string := ApFrom + ApHost + ApSpace + ApAddr + ApBy + ApId1 + ApId2 + ApFor + ApNote + ApDay
  const ApText: string := ApLead + ApDate + ApTime + ApZone
  /** A value whose last character is an apostrophe outside any comment, quoted string or literal. */
  const ApValue: string := ApText + "'"

  lemma ApRun1() ensures Run(Top, ApFrom) == Top { BareRun(ApFrom); }
  lemma ApRun2() ensures Run(Top, ApHost) == Top { LiteralPiece(ApHost); }
  lemma ApRun3() ensures Run(Top, ApSpace) == Top { BareRun(ApSpace); }
  lemma ApRun4() ensures Run(Top, ApAddr) == Top { CommentPiece(ApAddr); }
  lemma ApRun5() ensures Run(Top, ApBy) == Top { BareRun(ApBy); }
  lemma ApRun6() ensures Run(Top, ApId1) == Top { BareRun(ApId1); }
  lemma ApRun7() ensures Run(Top, ApId2) == Top { BareRun(ApId2); }
  lemma ApRun8() ensures Run(Top, ApFor) == Top { BareRun(ApFor); }
  lemma ApNoteText() ensures IsCommentText("version=") && IsCommentText("TLSv1 cipher=") && IsCommentText("RC4-SHA bits=128/128") { }
  lemma ApRun9() ensures Run(Top, ApNote) == Top {
    ApNoteText();
    CommentOfTexts("version=", "TLSv1 cipher=", "RC4-SHA bits=128/128");
  }
  lemma ApRun10() ensures Run(Top, ApDay) == Top { BareRun(ApDay); }
  lemma ApRun11() ensures Run(Top, ApDate) == Top { BareRun(ApDate); }
  lemma ApRun12() ensures Run(Top, ApTime) == Top { BareRun(ApTime); }
  lemma ApRun13() ensures Run(Top, ApZone) == Top { CommentPiece(ApZone); }

  lemma ApQuiet1() ensures Quiet(ApFrom) && Quiet(ApSpace) && Quiet(ApFor) && Quiet(ApDay) { }
  lemma ApQuiet2() ensures Quiet(ApHost) { }
  lemma ApQuiet3() ensures Quiet(ApAddr) { }
  lemma ApQuiet4() ensures Quiet(ApBy) { }
  lemma ApQuiet5() ensures Quiet(ApId1) { }
  lemma ApQuiet6() ensures Quiet(ApId2) { }
  lemma ApQuiet7() ensures Quiet("(") && Quiet("version=") && Quiet(")") { }
  lemma ApQuiet8() ensures Quiet("TLSv1 cipher=") { }
  lemma ApQuiet9() ensures Quiet("RC4-SHA bits=128/128" + ")") { }

  lemma LastTwo(a: string, b: string, c: string, d: string, e: string)
    ensures a + b + c + d + e == a + b + c + (d + e)
  {
  }

  lemma ApNoteQuiet() ensures Quiet(ApNote) {
    ApQuiet7(); ApQuiet8(); ApQuiet9();
    QuietJoin("(", "version=");
    QuietJoin("(" + "version=", "TLSv1 cipher=");
    QuietJoin("(" + "version=" + "TLSv1 cipher=", "RC4-SHA bits=128/128" + ")");
    LastTwo("(", "version=", "TLSv1 cipher=", "RC4-SHA bits=128/128", ")");
  }
  lemma ApLeadEnd() ensures ApDay != [] && IsWs(ApDay[|ApDay| - 1]) && ApFrom != [] && !IsWs(ApFrom[0]) { }
  lemma ApDay6() ensures PadDigits(6, 2) == "06" { }
  lemma ApYear() ensures PadDigits(2013, 4) == "2013" { }
  lemma ApWords() ensures DateWords(6, 8, 2013) == ApDate && ApTime != [] && !IsDigit(ApTime[0]) {
    ApDay6();
    ApYear();
    assert MonthNames[7] == "Aug";
  }
  lemma ApCalendar() ensures IsValidDate(2013, 8, 6) && DayNames[Weekday(2013, 8, 6)] + ", " == "Tue, " { }

  lemma TopOfPieces(a: string, b: string, c: string, d: string, e: string)
    requires Run(Top, a) == Top && Run(Top, b) == Top && Run(Top, c) == Top
    requires Run(Top, d) == Top && Run(Top, e) == Top
    ensures Run(Top, a + b + c + d + e) == Top
  {
    RunTopConcat(a, b);
    RunTopConcat(a + b, c);
    RunTopConcat(a + b + c, d);
    RunTopConcat(a + b + c + d, e);
  }

  /** Thirteen top-level pieces in a row. */
  lemma TopOfThirteen(a: string, b: string, c: string, d: string, e: string, f: string, g: string,
                      h: string, i: string, j: string, k: string, l: string, m: string)
    requires Run(Top, a) == Top && Run(Top, b) == Top && Run(Top, c) == Top && Run(Top, d) == Top
    requires Run(Top, e) == Top && Run(Top, f) == Top && Run(Top, g) == Top && Run(Top, h) == Top
    requires Run(Top, i) == Top && Run(Top, j) == Top && Run(Top, k) == Top && Run(Top, l) == Top
    requires Run(Top, m) == Top
    ensures Run(Top, a + b + c + d + e + f + g + h + i + j + k + l + m) == Top
  {
    TopOfPieces(a, b, c, d, e);
    TopOfPieces(a + b + c + d + e, f, g, h, i);
    TopOfPieces(a + b + c + d + e + f + g + h + i, j, k, l, m);
  }

  lemma ApStart() ensures ApText != [] && !IsWs(ApText[0]) {
    assert ApText[0] == 'f';
  }

  lemma ApTop()
    ensures Run(Top, ApText) == Top
  {
    ApRun1(); ApRun2(); ApRun3(); ApRun4(); ApRun5(); ApRun6(); ApRun7();
    ApRun8(); ApRun9(); ApRun10(); ApRun11(); ApRun12(); ApRun13();
    TopOfThirteen(ApFrom, ApHost, ApSpace, ApAddr, ApBy, ApId1, ApId2, ApFor, ApNote, ApDay, ApDate,
      ApTime, ApZone);
  }

  lemma ApSplit()
    ensures Split(ApValue) == Unstructured(ApValue)
  {
    ApTop();
    ApStart();
    ApostropheUnstructured(ApText);
  }

  lemma ApRegroup(lead: string, d: string, t: string, z: string)
    ensures lead + d + t + z + "'" == lead + (d + (t + z + "'"))
  {
  }

  lemma ApFirstDate()
    ensures FirstDate(ApValue, false) == Some((6, 8, 2013))
  {
    ApQuiet1(); ApQuiet2(); ApQuiet3(); ApQuiet4(); ApQuiet5(); ApQuiet6();
    ApNoteQuiet();
    ApLeadEnd(); ApWords();
    QuietOfPieces(ApFrom, ApHost, ApSpace, ApAddr, ApBy);
    QuietOfPieces(ApFrom + ApHost + ApSpace + ApAddr + ApBy, ApId1, ApId2, ApFor, ApNote);
    QuietJoin(ApFrom + ApHost + ApSpace + ApAddr + ApBy + ApId1 + ApId2 + ApFor + ApNote, ApDay);
    ApRegroup(ApLead, ApDate, ApTime, ApZone);
    DateAfterQuiet(ApLead, 6, 8, 2013, ApTime + ApZone + "'");
  }

  /**
    An apostrophe ends the value at top level: the value does not classify,
    there is no routing information, and the date is the first one in the
    raw text, 06 Aug 2013, at midnight +0000.
  */
  lemma ApostropheLine()
    ensures Name(NewField(ApValue)) == "Received" && NewField(ApValue).value == ApValue
    ensures NewField(ApValue).info == ""
    ensures NewField(ApValue).dateTime == Some(DateTime(2013, 8, 6, 0, 0, 0, 0))
    ensures FormattedDate(NewField(ApValue)) == Some("Tue, " + ApDate + " 00:00:00 +0000")
  {
    ApSplit();
    ApFirstDate();
    ApCalendar();
    ApWords();
    FallbackLine(ApValue, 6, 8, 2013);
  }
}
