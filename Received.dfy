/**
  The Received header field. Its value is cut once, when the field is
  built: a value that classifies gives the routing information in front of
  its last top-level ';' and the strictly parsed date after it; one that does
  not gives no routing information and the first calendar date found
  anywhere in it, at midnight +0000. Nothing changes afterwards, so the field
  is a value.
*/
module Received {
  import opened Wrappers
  import opened Text
  import opened Calendar
  import opened Lexical
  import opened Comments
  import opened Splitter
  import opened DateGrammar
  import opened DateParser
  import opened DateFormat
  import opened Fallback

  const FieldName: string := "Received"
  const Crlf: string := "\r\n"

  /** A built field: the raw value and what was cut out of it. */
  datatype ReceivedField = ReceivedField(value: string, info: string, dateTime: Option<Timestamp>)

  /** The field a raw value builds. */
  function NewField(value: string): (f: ReceivedField)
    ensures f.value == value
    ensures !Classifies(Trim(value)) ==> f.info == [] && f.dateTime == FallbackDate(value)
  {
    match Split(value)
    case Structured(info, clause) => ReceivedField(value, info, ParseDateTime(clause))
    case Unstructured(_) => ReceivedField(value, "", FallbackDate(value))
  }

  function Name(f: ReceivedField): string {
    FieldName
  }

  /** The date written out in full; none when the field has no date. */
  function FormattedDate(f: ReceivedField): (r: Option<string>)
    ensures r.None? <==> f.dateTime.None?
    ensures r.Some? ==> ParseDateTime(r.value) == f.dateTime
  {
    match f.dateTime
    case None => None
    case Some(t) => FormatParse(t); Some(FormatDate(t))
  }

  /** The value without the comment that may end it, such as a zone name "(GMT)". */
  function Decoded(f: ReceivedField): (r: string)
    ensures IsTrimmed(r)
  {
    StripTrailingComment(f.value)
  }

  /** The header line: the field name, ": ", the decoded value and one CRLF. */
  function Encoded(f: ReceivedField): string {
    FieldName + ": " + Decoded(f) + Crlf
  }

  /** The field of a value that Split cuts into info and clause. */
  lemma FieldOfStructured(value: string, info: string, clause: string)
    requires Split(value) == Structured(info, clause)
    ensures NewField(value) == ReceivedField(value, info, ParseDateTime(clause))
  {
  }

  // ---- what a built field holds ----

  /** The name is always "Received" and the value is the text the field was built from. */
  lemma NameAndValue(value: string)
    ensures Name(NewField(value)) == "Received"
    ensures NewField(value).value == value
  {
  }

  /**
    A value that classifies keeps as routing information the trimmed text in
    front of its last top-level ';', or all of its trimmed text when it has
    none, and takes its date from the trimmed text after that ';' alone.
  */
  lemma InfoBeforeSeparator(value: string)
    requires Classifies(Trim(value))
    ensures exists clause :: (CutAtLast(Trim(value), NewField(value).info, clause)
      && NewField(value).dateTime == ParseDateTime(clause))
  {
    var r := Split(value);
    SplitSpec(value);
    FieldOfStructured(value, r.info, r.dateClause);
    assert CutAtLast(Trim(value), NewField(value).info, r.dateClause);
  }

  /** A date is only ever one that the clause spells out and whose numbers are all in range. */
  lemma StructuredDate(value: string)
    requires Classifies(Trim(value)) && NewField(value).dateTime.Some?
    ensures var c := ParseSyntax(StripTrailingComment(Split(value).dateClause));
      && c.Some? && InRange(c.value)
      && NewField(value).dateTime.value == ToTimestamp(c.value)
      && NewField(value).dateTime.value.offset == OffsetMinutes(c.value.negative, c.value.zoneHours, c.value.zoneMinutes)
  {
  }

  /**
    A value that does not classify has no routing information; its date is
    the first date it shows, at midnight +0000, and there is none when it
    shows none or the first one is not a calendar date.
  */
  lemma UnclassifiedFallback(value: string)
    requires !Classifies(Trim(value))
    ensures NewField(value).info == []
    ensures var d := NewField(value).dateTime; var first := FirstDate(value, false);
      && (d.Some? ==> && d.value.hour == 0 && d.value.minute == 0 && d.value.second == 0
                      && d.value.offset == 0
                      && first == Some((d.value.day, d.value.month, d.value.year)))
      && (d.None? ==> first.None? || !IsValidDate(first.value.2, first.value.1, first.value.0))
  {
  }

  /** A fallback date is written as its weekday and calendar date at "00:00:00 +0000". */
  lemma FallbackFormatted(value: string)
    requires !Classifies(Trim(value)) && NewField(value).dateTime.Some?
    ensures var t := NewField(value).dateTime.value;
      FormattedDate(NewField(value)) == Some(DayNames[Weekday(t.year, t.month, t.day)] + ", "
        + PadDigits(t.day, 2) + " " + MonthNames[t.month - 1] + " " + PadDigits(t.year, 4)
        + " 00:00:00 +0000")
  {
    var t := NewField(value).dateTime.value;
    assert t == Midnight(t.year, t.month, t.day);
    FormatMidnight(t.year, t.month, t.day);
  }

  // ---- what a built field renders ----

  /** Every character of the decoded value comes from the raw value. */
  lemma DecodedFromValue(value: string)
    ensures forall ch :: ch in Decoded(NewField(value)) ==> ch in value
    ensures var d := Decoded(NewField(value)); |d| <= |Trim(value)| && Trim(value)[..|d|] == d
    ensures !EndsWithComment(Trim(value)) ==> Decoded(NewField(value)) == Trim(value)
    ensures EndsWithComment(Trim(value)) ==> CommentRemoved(Trim(value), Decoded(NewField(value)))
  {
    StripKeepsChars(value);
    StripIsPrefix(value);
    StripTrailingCommentSpec(value);
  }

  /**
    The header line starts with "Received: " and ends with CRLF; when the raw
    value holds no carriage return, that final CRLF is the only one.
  */
  lemma EncodedFraming(value: string)
    ensures var e := Encoded(NewField(value));
      && |e| >= 12 && e[..10] == "Received: " && e[|e| - 2..] == Crlf
      && e[10..|e| - 2] == Decoded(NewField(value))
    ensures '\r' !in value ==>
      var e := Encoded(NewField(value));
      forall i :: 0 <= i < |e| && e[i] == '\r' ==> i == |e| - 2
  {
    var d := Decoded(NewField(value));
    StripKeepsChars(value);
    LineFraming(d, '\r' !in value);
  }

  /** The framing of "Received: " + d + CRLF, for a d that holds no carriage return when noCr says so. */
  lemma LineFraming(d: string, noCr: bool)
    requires noCr ==> '\r' !in d
    ensures var e := FieldName + ": " + d + Crlf;
      && |e| >= 12 && e[..10] == "Received: " && e[|e| - 2..] == Crlf && e[10..|e| - 2] == d
      && (noCr ==> forall i :: 0 <= i < |e| && e[i] == '\r' ==> i == |e| - 2)
  {
    var e := FieldName + ": " + d + Crlf;
    if noCr {
      forall i | 0 <= i < |e| && e[i] == '\r' ensures i == |e| - 2 {
        if 10 <= i < |e| - 2 {
          assert false;
        }
      }
    }
  }

  /** The header line, with the field name and the line break written out. */
  lemma EncodedLine(f: ReceivedField)
    ensures Encoded(f) == "Received: " + Decoded(f) + "\r\n"
  {
    HeaderOf(Decoded(f));
  }

  lemma HeaderOf(d: string)
    ensures FieldName + ": " + d + Crlf == "Received: " + d + "\r\n"
  {
    assert FieldName + ": " == "Received: ";
  }

  /** A blank value has no information and no date, decodes to "" and encodes to "Received: " and CRLF. */
  lemma BlankValue(value: string)
    requires AllWs(value)
    ensures var f := NewField(value);
      && f.info == [] && f.dateTime.None? && FormattedDate(f).None?
      && Decoded(f) == [] && Encoded(f) == "Received: \r\n"
  {
    BlankParts(value);
    FieldOfStructured(value, "", "");
    BlankField(NewField(value));
  }

  /** A field with no information and no date whose value decodes to nothing renders a bare header line. */
  lemma BlankField(f: ReceivedField)
    requires f.info == [] && f.dateTime.None? && StripTrailingComment(f.value) == []
    ensures FormattedDate(f).None? && Decoded(f) == [] && Encoded(f) == "Received: \r\n"
  {
    HeaderOf([]);
    assert "Received: " + [] + "\r\n" == "Received: \r\n";
  }

  lemma BlankParts(value: string)
    requires AllWs(value)
    ensures Split(value) == Structured("", "")
    ensures ParseDateTime("") == None
    ensures StripTrailingComment(value) == []
  {
    SplitBlank(value);
    NoDate();
    BlankStrip(value);
  }

  lemma NoDate()
    ensures ParseDateTime("") == None
  {
  }

  lemma BlankStrip(value: string)
    requires AllWs(value)
    ensures StripTrailingComment(value) == []
  {
    TrimAfterWs(value, "");
    assert value + "" == value;
    StripWithoutComment(value);
  }

  /**
    A decoded value decodes to itself exactly when it does not itself end in
    a comment; one that does loses a further comment: decoding "a (b) (c)"
    gives "a (b)", and decoding that gives "a" (DecodeTwice).
  */
  lemma DecodedStable(value: string)
    ensures var d := Decoded(NewField(value));
      Decoded(NewField(d)) == d <==> !EndsWithComment(d)
  {
    var d := Decoded(NewField(value));
    TrimOfTrimmed(d);
    StripTrailingCommentSpec(d);
  }

  // ---- values built from a routing part and a date clause ----

  /** Routing information that a value can be cut after. */
  predicate RoutingInfo(info: string) {
    IsTrimmed(info) && Run(Top, info) == Top && LastTop(Top, info, ':').None?
  }

  /**
    A date clause in the grammar's form after the routing information and a
    ';', as the line "info; Www, DD Mon YYYY HH:MM:SS +ZZZZ" writes it: the
    information is kept whole, the date is the clause's exactly when its
    numbers are in range, and the value decodes and encodes unchanged.
  */
  lemma StructuredValue(info: string, gap: string, c: DateSyntax)
    requires RoutingInfo(info) && AllWs(gap) && WellFormed(c)
    ensures NewField(info + ";" + gap + RenderSyntax(c)).info == info
    ensures NewField(info + ";" + gap + RenderSyntax(c)).dateTime
      == (if InRange(c) then Some(ToTimestamp(c)) else None)
    ensures !InRange(c) ==> FormattedDate(NewField(info + ";" + gap + RenderSyntax(c))).None?
    ensures Decoded(NewField(info + ";" + gap + RenderSyntax(c))) == info + ";" + gap + RenderSyntax(c)
    ensures Encoded(NewField(info + ";" + gap + RenderSyntax(c))) == "Received: " + (info + ";" + gap + RenderSyntax(c)) + "\r\n"
  {
    var value := info + ";" + gap + RenderSyntax(c);
    StructuredParts(info, gap, c);
    ParseRendered(c);
    FieldOfStructured(value, info, RenderSyntax(c));
    EncodedLine(NewField(value));
  }

  lemma StructuredParts(info: string, gap: string, c: DateSyntax)
    requires RoutingInfo(info) && AllWs(gap) && WellFormed(c)
    ensures var value := info + ";" + gap + RenderSyntax(c);
      && Split(value) == Structured(info, RenderSyntax(c))
      && StripTrailingComment(value) == value
  {
    var r := RenderSyntax(c);
    var value := info + ";" + gap + r;
    RenderShape(c);
    RunRenderChars(r);
    RenderNoSeparator(r);
    assert Split(value) == Structured(info, r) by {
      SplitAtSeparator(value, info, gap, r);
    }
    assert StripTrailingComment(value) == value by {
      SeparatorFacts(info, gap, r);
      StripTrimmed(value);
    }
  }

  /**
    The same line with a trailing comment such as "(GMT)": the comment makes
    no difference to the information or the date, and decoding removes
    exactly the comment and the whitespace before it.
  */
  lemma StructuredValueWithComment(info: string, gap: string, c: DateSyntax, cgap: string, text: string)
    requires RoutingInfo(info) && AllWs(gap) && WellFormed(c)
    requires AllWs(cgap) && IsCommentText(text) && ';' !in text
    ensures NewField(info + ";" + gap + RenderSyntax(c) + cgap + "(" + text + ")").info == info
    ensures NewField(info + ";" + gap + RenderSyntax(c) + cgap + "(" + text + ")").dateTime
      == (if InRange(c) then Some(ToTimestamp(c)) else None)
    ensures Decoded(NewField(info + ";" + gap + RenderSyntax(c) + cgap + "(" + text + ")"))
      == info + ";" + gap + RenderSyntax(c)
    ensures Encoded(NewField(info + ";" + gap + RenderSyntax(c) + cgap + "(" + text + ")"))
      == "Received: " + (info + ";" + gap + RenderSyntax(c)) + "\r\n"
  {
    var line := info + ";" + gap + RenderSyntax(c);
    var value := line + cgap + "(" + text + ")";
    CommentedParts(info, gap, c, cgap, text);
    ParseRenderedWithComment(c, cgap, text);
    FieldOfStructured(value, info, RenderSyntax(c) + cgap + "(" + text + ")");
    EncodedLine(NewField(value));
  }

  lemma CommentedParts(info: string, gap: string, c: DateSyntax, cgap: string, text: string)
    requires RoutingInfo(info) && AllWs(gap) && WellFormed(c)
    requires AllWs(cgap) && IsCommentText(text) && ';' !in text
    ensures var line := info + ";" + gap + RenderSyntax(c);
      var value := line + cgap + "(" + text + ")";
      && Split(value) == Structured(info, RenderSyntax(c) + cgap + "(" + text + ")")
      && StripTrailingComment(value) == line
  {
    var r := RenderSyntax(c);
    var line := info + ";" + gap + r;
    var value := line + cgap + "(" + text + ")";
    RenderShape(c);
    RunRenderChars(r);
    assert Split(value) == Structured(info, r + cgap + "(" + text + ")") by {
      CommentedSplit(info, gap, r, cgap, text);
    }
    assert StripTrailingComment(value) == line by {
      RenderNoSeparator(r);
      SeparatorFacts(info, gap, r);
      RunConcat(Top, info + ";" + gap, r);
      StripAppendedComment(line, cgap, text);
    }
  }

  lemma CommentedSplit(info: string, gap: string, r: string, cgap: string, text: string)
    requires RoutingInfo(info) && AllWs(gap)
    requires |r| > 0 && IsTrimmed(r) && AllRenderChars(r) && Run(Top, r) == Top
    requires AllWs(cgap) && IsCommentText(text) && ';' !in text
    ensures Split(info + ";" + gap + r + cgap + "(" + text + ")") == Structured(info, r + cgap + "(" + text + ")")
  {
    var clause := r + cgap + "(" + text + ")";
    var value := info + ";" + gap + clause;
    RegroupLine(info + ";" + gap, r, cgap, text);
    CommentClause(r, cgap, text);
    assert clause[|clause| - 1] == ')';
    SplitAtSeparator(value, info, gap, clause);
  }

  /** The rendered clause holds no ';'. */
  lemma RenderNoSeparator(r: string)
    requires AllRenderChars(r)
    ensures LastTop(Top, r, ';').None?
  {
    assert ';' !in r by {
      forall i | 0 <= i < |r| ensures r[i] != ';' {
        assert IsRenderChar(r[i]);
      }
    }
    LastTopAbsent(Top, r, ';');
  }

  /** A rendered clause and a trailing comment: trimmed, read back to top level, no top-level ';'. */
  lemma CommentClause(r: string, cgap: string, text: string)
    requires |r| > 0 && IsTrimmed(r) && AllRenderChars(r) && Run(Top, r) == Top
    requires AllWs(cgap) && IsCommentText(text) && ';' !in text
    ensures var clause := r + cgap + "(" + text + ")";
      && IsTrimmed(clause) && Run(Top, clause) == Top && LastTop(Top, clause, ';').None?
  {
    CommentClauseRun(r, cgap, text);
    ClauseNoSeparator(r, cgap, text);
    LastTopAbsent(Top, r + cgap + "(" + text + ")", ';');
  }

  /** Where the parentheses of r + cgap + "(" + text + ")" group makes no difference. */
  lemma Regroup(r: string, cgap: string, text: string)
    ensures r + (cgap + "(" + text) + ")" == r + cgap + "(" + text + ")"
  {
  }

  lemma RegroupLine(head: string, r: string, cgap: string, text: string)
    ensures head + (r + cgap + "(" + text + ")") == head + r + cgap + "(" + text + ")"
  {
  }

  lemma CommentClauseRun(r: string, cgap: string, text: string)
    requires |r| > 0 && IsTrimmed(r) && Run(Top, r) == Top
    requires AllWs(cgap) && IsCommentText(text)
    ensures var clause := r + cgap + "(" + text + ")";
      IsTrimmed(clause) && Run(Top, clause) == Top
  {
    var tail := cgap + "(" + text;
    Regroup(r, cgap, text);
    OpenCommentRun(cgap, text);
    AppendedCommentFacts(r, tail, |cgap|);
    RunConcat(Top, r + tail, ")");
    RunConcat(Top, r, tail);
  }

  lemma ClauseNoSeparator(r: string, cgap: string, text: string)
    requires AllRenderChars(r) && AllWs(cgap) && ';' !in text
    ensures ';' !in r + cgap + "(" + text + ")"
  {
    var clause := r + cgap + "(" + text + ")";
    forall i | 0 <= i < |clause| ensures clause[i] != ';' {
      if i < |r| {
        assert clause[i] == r[i] && IsRenderChar(r[i]);
      } else if i < |r| + |cgap| {
        assert clause[i] == cgap[i - |r|] && IsWs(cgap[i - |r|]);
      } else if |r| + |cgap| < i < |clause| - 1 {
        assert clause[i] == text[i - |r| - |cgap| - 1];
      }
    }
  }

  /** The decoding that DecodedStable excludes: a value ending in two comments loses one at each decoding. */
  lemma DecodeTwice()
    ensures Decoded(NewField("a (b) (c)")) == "a (b)"
    ensures Decoded(NewField("a (b)")) == "a"
  {
    DecodeOuter();
    DecodeInner();
  }

  lemma DecodeOuter()
    ensures StripTrailingComment("a (b) (c)") == "a (b)"
  {
    OnceDecoded();
    StripAppendedComment("a (b)", " ", "c");
    assert "a (b)" + " " + "(" + "c" + ")" == "a (b) (c)";
  }

  lemma OnceDecoded()
    ensures IsTrimmed("a (b)") && Run(Top, "a (b)") == Top && AllWs(" ") && IsCommentText("c")
  {
    assert "a (b)" == "a" + " (b)";
    RunConcat(Top, "a", " (b)");
  }

  lemma DecodeInner()
    ensures StripTrailingComment("a (b)") == "a"
  {
    StripAppendedComment("a", " ", "b");
    assert "a" + " " + "(" + "b" + ")" == "a (b)";
  }
}
