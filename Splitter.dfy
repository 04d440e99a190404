/**
  The cut of a Received value into its routing information and its date
  clause. The trace field of RFC 5322, section 3.6.7, is a run of tokens, a
  ';' and a date-time; the separator is the last ';' read at top level, so a
  ';' inside a comment, a quoted string or a domain literal does not count.
  A value that does not classify is not cut at all.
*/
module Splitter {
  import opened Wrappers
  import opened Text
  import opened Lexical

  datatype SplitOutcome =
    | Structured(info: string, dateClause: string)
    | Unstructured(raw: string)

  /** The part of a trimmed value in front of its last top-level ';', or all of it when there is none. */
  function InfoPart(t: string): (r: string)
    ensures |r| <= |t| && r == t[..|r|]
    ensures LastTop(Top, t, ';').Some? ==> |r| == LastTop(Top, t, ';').value
    ensures LastTop(Top, t, ';').None? ==> r == t
  {
    match LastTop(Top, t, ';')
    case Some(p) => t[..p]
    case None => t
  }

  /** The value ends in a top-level apostrophe, which no token class admits there. */
  predicate StrayApostrophe(t: string) {
    |t| > 0 && t[|t| - 1] == '\'' && Run(Top, t[..|t| - 1]) == Top
  }

  /**
    A colon stands at top level in the routing information in front of a
    top-level ';', as in a bare "2002:a05:7000" run. A value with no ';' has
    no separate routing information, so a time of day in it is no failure.
  */
  predicate BareColon(t: string) {
    LastTop(Top, t, ';').Some? && LastTop(Top, InfoPart(t), ':').Some?
  }

  /**
    The trimmed value is made of tokens the grammar classifies. Two failures
    are modelled: a bare colon run in the routing information, and a stray
    apostrophe at the end, which is the token chosen as the failure of the
    line ending in "(PDT)'". Angle brackets are never a failure here.
  */
  predicate Classifies(t: string) {
    !StrayApostrophe(t) && !BareColon(t)
  }

  /**
    The split of a raw value: unstructured when it does not classify;
    otherwise the trimmed text on either side of the last top-level ';', or
    the whole trimmed text and an empty clause when there is no ';'.
  */
  function Split(raw: string): (r: SplitOutcome)
    ensures r.Unstructured? <==> !Classifies(Trim(raw))
    ensures r.Unstructured? ==> r.raw == raw
    ensures r.Structured? ==> IsTrimmed(r.info) && IsTrimmed(r.dateClause)
  {
    var t := Trim(raw);
    if !Classifies(t) then Unstructured(raw) else Cut(t)
  }

  /** The cut of a classified, trimmed value at its last top-level ';'. */
  function Cut(t: string): (r: SplitOutcome)
    ensures r.Structured?
  {
    match LastTop(Top, t, ';')
    case None => Structured(t, "")
    case Some(p) => Structured(Trim(t[..p]), Trim(t[p + 1..]))
  }

  /**
    info and clause are the trimmed text on either side of a top-level ';'
    of t after which none follows, or, when t has no top-level ';', the whole
    of t and an empty clause.
  */
  predicate CutAtLast(t: string, info: string, clause: string) {
    || (&& (forall j :: 0 <= j < |t| ==> !TopAt(Top, t, j, ';'))
        && info == t && clause == [])
    || (exists p :: (0 <= p < |t| && TopAt(Top, t, p, ';')
        && (forall j :: p < j < |t| ==> !TopAt(Top, t, j, ';'))
        && info == Trim(t[..p]) && clause == Trim(t[p + 1..])))
  }

  /** A classified value is cut at its last top-level ';'. */
  lemma SplitSpec(raw: string)
    requires Split(raw).Structured?
    ensures CutAtLast(Trim(raw), Split(raw).info, Split(raw).dateClause)
  {
    CutSpec(Trim(raw));
  }

  lemma CutSpec(t: string)
    ensures CutAtLast(t, Cut(t).info, Cut(t).dateClause)
  {
    LastTopSpec(Top, t, ';');
    match LastTop(Top, t, ';')
    case None =>
    case Some(p) =>
      assert TopAt(Top, t, p, ';');
  }

  /** Cutting a trimmed text at index p loses only the whitespace next to p. */
  lemma CutAt(t: string, p: nat)
    requires IsTrimmed(t) && p < |t| && t[p] == ';'
    ensures exists w1, w2 :: (AllWs(w1) && AllWs(w2)
      && t == Trim(t[..p]) + w1 + ";" + w2 + Trim(t[p + 1..]))
  {
    var a := t[..p];
    var b := t[p + 1..];
    CutPieces(t, p);
    TrimKeepsStart(a);
    TrimKeepsEnd(b);
    var w1 := a[|Trim(a)|..];
    var w2 := b[..|b| - |Trim(b)|];
    Rejoin(t, a, b, Trim(a), w1, w2, Trim(b));
  }

  /** The two sides of index p of a trimmed text, with no whitespace at the outer ends. */
  lemma CutPieces(t: string, p: nat)
    requires IsTrimmed(t) && p < |t| && t[p] == ';'
    ensures t == t[..p] + ";" + t[p + 1..]
    ensures t[..p] == [] || !IsWs(t[..p][0])
    ensures t[p + 1..] == [] || !IsWs(t[p + 1..][|t[p + 1..]| - 1])
  {
    assert t == t[..p] + [t[p]] + t[p + 1..];
    assert t[..p] != [] ==> t[..p][0] == t[0];
    assert t[p + 1..] != [] ==> t[p + 1..][|t[p + 1..]| - 1] == t[|t| - 1];
  }

  lemma Rejoin(t: string, a: string, b: string, x: string, w1: string, w2: string, y: string)
    requires t == a + ";" + b && a == x + w1 && b == w2 + y
    ensures t == x + w1 + ";" + w2 + y
  {
  }

  /** Only whitespace is lost when a value is cut: the info, a ';' and the clause make up the trimmed value. */
  lemma SplitRecomposes(raw: string)
    requires Split(raw).Structured? && LastTop(Top, Trim(raw), ';').Some?
    ensures exists w1, w2 :: (AllWs(w1) && AllWs(w2)
      && Trim(raw) == Split(raw).info + w1 + ";" + w2 + Split(raw).dateClause)
  {
    TrimIsInfix(raw);
    CutAt(Trim(raw), LastTop(Top, Trim(raw), ';').value);
  }

  /** After a top-level text, a ';' and whitespace leave the context at top level and are the last ';' so far. */
  lemma SeparatorRun(info: string, gap: string)
    requires Run(Top, info) == Top && AllWs(gap)
    ensures Run(Top, info + ";" + gap) == Top
    ensures LastTop(Top, info + ";" + gap, ';') == Some(|info|)
  {
    RunConcat(Top, info, ";");
    RunConcat(Top, info + ";", gap);
    RunWs(Top, gap);
    assert ';' !in gap by {
      forall i | 0 <= i < |gap| ensures gap[i] != ';' {
        assert IsWs(gap[i]);
      }
    }
    LastTopAbsent(Top, gap, ';');
    LastTopBefore(Top, info + ";", gap, ';');
    LastTopAfter(Top, info, ";", ';', 0);
  }

  /** How Split treats a value that is already trimmed and is cut at p. */
  lemma SplitTrimmedAt(t: string, p: nat)
    requires IsTrimmed(t) && LastTop(Top, t, ';') == Some(p)
    requires !StrayApostrophe(t) && LastTop(Top, t[..p], ':').None?
    ensures Split(t) == Structured(Trim(t[..p]), Trim(t[p + 1..]))
  {
    TrimOfTrimmed(t);
  }

  /** A trimmed value that does not classify is returned whole. */
  lemma SplitTrimmedUnclassified(t: string)
    requires IsTrimmed(t) && !Classifies(t)
    ensures Split(t) == Unstructured(t)
  {
    TrimOfTrimmed(t);
  }

  /**
    A value made of routing information, a ';' and a date clause is cut
    exactly there, whatever comments, quoted strings, domain literals or ';'
    the information holds, as long as the clause holds no top-level ';' and
    nothing keeps the value from classifying.
  */
  lemma SplitAtSeparator(raw: string, info: string, gap: string, clause: string)
    requires raw == info + ";" + gap + clause
    requires IsTrimmed(info) && Run(Top, info) == Top && LastTop(Top, info, ':').None?
    requires AllWs(gap)
    requires clause != [] && IsTrimmed(clause) && Run(Top, clause) == Top
    requires LastTop(Top, clause, ';').None? && clause[|clause| - 1] != '\''
    ensures Split(raw) == Structured(info, clause)
  {
    SeparatorFacts(info, gap, clause);
    TrimOfTrimmed(info);
    TrimAfterWs(gap, clause);
    SplitCutAt(raw, info, gap + clause, clause);
  }

  lemma SplitCutAt(raw: string, info: string, after: string, clause: string)
    requires IsTrimmed(raw) && LastTop(Top, raw, ';') == Some(|info|) && Run(Top, raw) == Top
    requires raw[..|info|] == info && raw[|info| + 1..] == after
    requires raw[|raw| - 1] != '\'' && LastTop(Top, info, ':').None?
    requires Trim(info) == info && Trim(after) == clause
    ensures Split(raw) == Structured(info, clause)
  {
    SplitTrimmedAt(raw, |info|);
  }

  lemma SeparatorFacts(info: string, gap: string, clause: string)
    requires IsTrimmed(info) && Run(Top, info) == Top
    requires AllWs(gap)
    requires clause != [] && IsTrimmed(clause) && Run(Top, clause) == Top
    requires LastTop(Top, clause, ';').None?
    ensures var raw := info + ";" + gap + clause;
      && IsTrimmed(raw) && LastTop(Top, raw, ';') == Some(|info|) && Run(Top, raw) == Top
      && raw[..|info|] == info && raw[|info| + 1..] == gap + clause
      && raw[|raw| - 1] == clause[|clause| - 1]
  {
    var head := info + ";" + gap;
    var raw := head + clause;
    assert raw[0] == (if info == [] then ';' else info[0]);
    assert raw[|raw| - 1] == clause[|clause| - 1];
    SeparatorRun(info, gap);
    LastTopBefore(Top, head, clause, ';');
    RunConcat(Top, head, clause);
    assert raw[..|info|] == info;
    assert raw[|info| + 1..] == gap + clause;
  }

  /** A top-level colon before the last top-level ';' makes the value unstructured. */
  lemma ColonUnstructured(a: string, b: string, clause: string)
    requires IsTrimmed(a + ":" + b + ";" + clause)
    requires Run(Top, a) == Top && Run(Top, a + ":" + b) == Top
    requires LastTop(Top, clause, ';').None?
    ensures Split(a + ":" + b + ";" + clause) == Unstructured(a + ":" + b + ";" + clause)
  {
    var info := a + ":" + b;
    var raw := info + ";" + clause;
    assert LastTop(Top, raw, ';') == Some(|info|) by {
      SeparatorRun(info, "");
      assert info + ";" + "" == info + ";";
      LastTopBefore(Top, info + ";", clause, ';');
    }
    assert InfoPart(raw) == info;
    assert LastTop(Top, info, ':').Some? by {
      RunConcat(Top, a, ":");
      LastTopAfter(Top, a, ":", ':', 0);
      match LastTop(Run(Top, a + ":"), b, ':')
      case Some(j) => LastTopAfter(Top, a + ":", b, ':', j);
      case None => LastTopBefore(Top, a + ":", b, ':');
    }
    SplitTrimmedUnclassified(raw);
  }

  /** A value ending in an apostrophe that stands at top level is unstructured. */
  lemma ApostropheUnstructured(x: string)
    requires x != [] && !IsWs(x[0]) && Run(Top, x) == Top
    ensures Split(x + "'") == Unstructured(x + "'")
  {
    var raw := x + "'";
    assert raw[0] == x[0];
    TrimOfTrimmed(raw);
    assert raw[..|raw| - 1] == x;
  }

  /**
    A value with no top-level ';' that classifies is all routing information
    with an empty clause, whatever colons it holds: "10 May 2005 17:26" is
    structured, with no date.
  */
  lemma NoSeparator(raw: string)
    requires LastTop(Top, Trim(raw), ';').None? && !StrayApostrophe(Trim(raw))
    ensures Split(raw) == Structured(Trim(raw), "")
  {
  }

  /** A blank value is structured, with empty information and an empty date clause. */
  lemma SplitBlank(raw: string)
    requires AllWs(raw)
    ensures Split(raw) == Structured("", "")
  {
    TrimAfterWs(raw, "");
    assert raw + "" == raw;
  }
}
