/**
  Removal of the one parenthesised comment that may end a header value, such
  as the zone name in "... +0000 (GMT)".
*/
module Comments {
  import opened Wrappers
  import opened Text
  import opened Lexical

  /** c is exactly one complete top-level comment: it opens at its first character and closes at its last. */
  predicate IsOneComment(c: string) {
    && |c| >= 2
    && c[0] == '('
    && Run(Top, c) == Top
    && forall j :: 0 < j < |c| ==> Run(Top, c[..j]) != Top
  }

  /** The last character of t closes a top-level comment. */
  predicate EndsWithComment(t: string) {
    |t| > 0 && t[|t| - 1] == ')' && Run(Top, t[..|t| - 1]) == Comment(1, false)
  }

  /** Text that may stand inside a comment without opening, closing or quoting anything. */
  predicate IsCommentText(s: string) {
    forall i :: 0 <= i < |s| ==> s[i] != '(' && s[i] != ')' && s[i] != '\\'
  }

  /**
    Inside a comment the context is that of the innermost open comment; the
    top-level '(' that opened it is the last one, and reading never returned to
    top level since.
  */
  lemma {:induction false} CommentOpener(s: string)
    requires Run(Top, s).Comment?
    ensures LastTop(Top, s, '(').Some?
    ensures forall j :: LastTop(Top, s, '(').value < j <= |s| ==> Run(Top, s[..j]) != Top
    decreases |s|
  {
    var u := s[..|s| - 1];
    var ch := s[|s| - 1];
    assert s == u + [ch];
    RunConcat(Top, u, [ch]);
    LastTopConcat(Top, u, [ch], '(');
    assert Run(Top, s) == Step(Run(Top, u), ch);
    assert s[..|s|] == s;
    if Run(Top, u) == Top {
      assert LastTop(Top, s, '(') == Some(|u|);
    } else {
      assert Run(Top, u).Comment?;
      CommentOpener(u);
      forall j | 0 <= j <= |u| ensures s[..j] == u[..j] { }
    }
  }

  lemma DropLast(t: string)
    requires t != []
    ensures t == t[..|t| - 1] + [t[|t| - 1]]
  {
  }

  /** The value with one trailing top-level comment removed, trimmed; otherwise just trimmed. */
  function StripTrailingComment(s: string): (r: string)
    ensures IsTrimmed(r)
  {
    var t := Trim(s);
    TrimIsInfix(s);
    if EndsWithComment(t) then
      DropLast(t);
      CommentOpener(t[..|t| - 1]);
      LastTopConcat(Top, t[..|t| - 1], [')'], '(');
      match LastTop(Top, t, '(')
      case Some(p) =>
        var r := TrimRight(t[..p]);
        assert r == [] || r[0] == t[0];
        r
      case None => assert false; t
    else t
  }

  lemma TrimLeftAfterWs(w: string, s: string)
    requires AllWs(w) && (s == [] || !IsWs(s[0]))
    ensures TrimLeft(w + s) == s
    decreases |w|
  {
    if w == [] {
      assert w + s == s;
    } else {
      assert (w + s)[1..] == w[1..] + s;
      TrimLeftAfterWs(w[1..], s);
    }
  }

  lemma TrimRightBeforeWs(s: string, w: string)
    requires AllWs(w) && (s == [] || !IsWs(s[|s| - 1]))
    ensures TrimRight(s + w) == s
    decreases |w|
  {
    if w == [] {
      assert s + w == s;
    } else {
      var w' := w[..|w| - 1];
      assert (s + w)[..|s + w| - 1] == s + w';
      TrimRightBeforeWs(s, w');
    }
  }

  /** Where the trailing comment of t opens, and that it spans the rest of t. */
  lemma TrailingOpener(t: string)
    requires EndsWithComment(t)
    ensures LastTop(Top, t, '(').Some?
    ensures var p := LastTop(Top, t, '(').value;
      && p < |t| - 1 && t[p] == '(' && Run(Top, t[..p]) == Top
      && Run(Top, t) == Top
      && forall j :: p < j < |t| ==> Run(Top, t[..j]) != Top
  {
    var u := t[..|t| - 1];
    DropLast(t);
    CommentOpener(u);
    LastTopConcat(Top, u, [')'], '(');
    RunConcat(Top, u, [')']);
    LastTopSpec(Top, t, '(');
    var p := LastTop(Top, t, '(').value;
    forall j | p < j < |t| ensures Run(Top, t[..j]) != Top {
      assert t[..j] == u[..j];
    }
  }

  /** The comment that TrailingOpener locates is one whole comment. */
  lemma TrailingCommentIsOne(t: string)
    requires EndsWithComment(t)
    ensures LastTop(Top, t, '(').Some?
    ensures IsOneComment(t[LastTop(Top, t, '(').value..])
  {
    TrailingOpener(t);
    var p := LastTop(Top, t, '(').value;
    var c := t[p..];
    assert t == t[..p] + c;
    RunConcat(Top, t[..p], c);
    forall j | 0 < j < |c| ensures Run(Top, c[..j]) != Top {
      assert t[..p + j] == t[..p] + c[..j];
      RunConcat(Top, t[..p], c[..j]);
    }
  }

  lemma StripValue(s: string)
    requires EndsWithComment(Trim(s))
    ensures LastTop(Top, Trim(s), '(').Some?
    ensures StripTrailingComment(s) == TrimRight(Trim(s)[..LastTop(Top, Trim(s), '(').value])
  {
    TrailingOpener(Trim(s));
  }

  /** r is t with one whole trailing comment, and the whitespace before it, cut off. */
  predicate CommentRemoved(t: string, r: string) {
    && |r| < |t| && t[..|r|] == r
    && Run(Top, r) == Top
    && var c := TrimLeft(t[|r|..]);
       AllWs(t[|r|..|t| - |c|]) && IsOneComment(c)
  }

  lemma CutComment(t: string, p: nat)
    requires p < |t| && t[p] == '(' && IsOneComment(t[p..]) && Run(Top, t[..p]) == Top
    ensures CommentRemoved(t, TrimRight(t[..p]))
  {
    var r := TrimRight(t[..p]);
    var w := t[..p][|r|..];
    var c := t[p..];
    assert t[..p] == r + w;
    assert t == r + w + c;
    RunConcat(Top, r, w);
    RunWs(Run(Top, r), w);
    CommentAfterGap(t, r, w, c);
  }

  lemma CommentAfterGap(t: string, r: string, w: string, c: string)
    requires t == r + w + c && AllWs(w) && IsOneComment(c) && Run(Top, r) == Top
    ensures CommentRemoved(t, r)
  {
    assert t[..|r|] == r;
    assert t[|r|..] == w + c;
    TrimLeftAfterWs(w, c);
    assert t[|r|..|t| - |c|] == w;
  }

  /**
    What StripTrailingComment removes: nothing but whitespace when the value
    does not end with a comment; otherwise exactly one whole comment and the
    whitespace before it, leaving a part that ends at top level.
  */
  lemma StripTrailingCommentSpec(s: string)
    ensures !EndsWithComment(Trim(s)) ==> StripTrailingComment(s) == Trim(s)
    ensures EndsWithComment(Trim(s)) ==> CommentRemoved(Trim(s), StripTrailingComment(s))
  {
    var t := Trim(s);
    if EndsWithComment(t) {
      TrailingOpener(t);
      TrailingCommentIsOne(t);
      StripValue(s);
      CutComment(t, LastTop(Top, t, '(').value);
    }
  }

  /** Inside a comment, comment text changes nothing. */
  lemma {:induction false} RunCommentText(d: nat, s: string)
    requires d >= 1 && IsCommentText(s)
    ensures Run(Comment(d, false), s) == Comment(d, false)
    decreases |s|
  {
    if s != [] {
      RunCommentText(d, s[1..]);
    }
  }

  /** A value that does not end in ')' keeps everything but its outer whitespace. */
  lemma StripWithoutComment(s: string)
    requires Trim(s) == [] || Trim(s)[|Trim(s)| - 1] != ')'
    ensures StripTrailingComment(s) == Trim(s)
  {
  }

  /** A trimmed value that does not end in ')' is left as it is. */
  lemma StripTrimmed(s: string)
    requires IsTrimmed(s) && (s == [] || s[|s| - 1] != ')')
    ensures StripTrailingComment(s) == s
  {
    TrimOfTrimmed(s);
    StripWithoutComment(s);
  }

  /** Reading whitespace, then '(' and comment text, from top level leaves one comment open. */
  lemma OpenCommentRun(gap: string, text: string)
    requires AllWs(gap) && IsCommentText(text)
    ensures Run(Top, gap + "(" + text) == Comment(1, false)
    ensures LastTop(Top, gap + "(" + text, '(') == Some(|gap|)
  {
    RunWs(Top, gap);
    RunConcat(Top, gap, "(");
    RunConcat(Top, gap + "(", text);
    RunCommentText(1, text);
    assert '(' !in text;
    LastTopAbsent(Comment(1, false), text, '(');
    LastTopConcat(Top, gap + "(", text, '(');
    assert '(' !in gap by {
      forall i | 0 <= i < |gap| ensures gap[i] != '(' {
        assert IsWs(gap[i]);
      }
    }
    LastTopAbsent(Top, gap, '(');
    LastTopConcat(Top, gap, "(", '(');
  }

  /** Appending whitespace and one comment to a top-level text x is undone by StripTrailingComment. */
  lemma StripAppendedComment(x: string, gap: string, text: string)
    requires x != [] && IsTrimmed(x) && Run(Top, x) == Top
    requires AllWs(gap) && IsCommentText(text)
    ensures StripTrailingComment(x + gap + "(" + text + ")") == x
  {
    var tail := gap + "(" + text;
    OpenCommentRun(gap, text);
    AppendedCommentFacts(x, tail, |gap|);
    AppendedParts(x, gap, text);
    StripTrimmedAt(x + tail + ")", |x| + |gap|);
    TrimRightBeforeWs(x, gap);
  }

  lemma AppendedParts(x: string, gap: string, text: string)
    ensures x + (gap + "(" + text) + ")" == x + gap + "(" + text + ")"
    ensures (x + (gap + "(" + text) + ")")[..|x| + |gap|] == x + gap
  {
    var v := x + (gap + "(" + text) + ")";
    assert v == (x + gap) + ("(" + text + ")");
  }

  /** Where the appended comment opens, and that it ends the value. */
  lemma AppendedCommentFacts(x: string, tail: string, p: nat)
    requires x != [] && IsTrimmed(x) && Run(Top, x) == Top
    requires Run(Top, tail) == Comment(1, false) && LastTop(Top, tail, '(') == Some(p)
    ensures IsTrimmed(x + tail + ")") && EndsWithComment(x + tail + ")")
    ensures LastTop(Top, x + tail + ")", '(') == Some(|x| + p)
  {
    OpenAfter(x, tail, p);
    ClosedAfter(x + tail, |x| + p);
    assert (x + tail + ")")[0] == x[0];
  }

  /** A tail that leaves one comment open, read after a top-level text x. */
  lemma OpenAfter(x: string, tail: string, p: nat)
    requires Run(Top, x) == Top
    requires Run(Top, tail) == Comment(1, false) && LastTop(Top, tail, '(') == Some(p)
    ensures Run(Top, x + tail) == Comment(1, false) && LastTop(Top, x + tail, '(') == Some(|x| + p)
  {
    RunConcat(Top, x, tail);
    LastTopAfter(Top, x, tail, '(', p);
  }

  /** Closing the one open comment of u adds no top-level '('. */
  lemma ClosedAfter(u: string, p: nat)
    requires Run(Top, u) == Comment(1, false) && LastTop(Top, u, '(') == Some(p)
    ensures EndsWithComment(u + ")") && LastTop(Top, u + ")", '(') == Some(p)
  {
    assert (u + ")")[..|u|] == u;
    LastTopBefore(Top, u, ")", '(');
  }

  /** On a trimmed value that ends in a comment opening at p, StripTrailingComment cuts at p. */
  lemma StripTrimmedAt(t: string, p: nat)
    requires IsTrimmed(t) && EndsWithComment(t) && LastTop(Top, t, '(') == Some(p)
    ensures StripTrailingComment(t) == TrimRight(t[..p])
  {
    TrimOfTrimmed(t);
    StripValue(t);
  }

  /** StripTrailingComment only removes: every character it keeps is one of s. */
  lemma StripKeepsChars(s: string)
    ensures forall ch :: ch in StripTrailingComment(s) ==> ch in s
  {
    TrimIsInfix(s);
    StripIsPrefix(s);
    CharsOfInfix(s, Trim(s), StripTrailingComment(s), |s| - |TrimLeft(s)|);
  }

  /** What StripTrailingComment keeps is a prefix of the trimmed value. */
  lemma StripIsPrefix(s: string)
    ensures var r := StripTrailingComment(s); |r| <= |Trim(s)| && Trim(s)[..|r|] == r
  {
    StripTrailingCommentSpec(s);
  }

  /** A prefix of a slice of s holds only characters of s. */
  lemma CharsOfInfix(s: string, t: string, r: string, k: nat)
    requires k + |t| <= |s| && s[k..k + |t|] == t && |r| <= |t| && t[..|r|] == r
    ensures forall ch :: ch in r ==> ch in s
  {
    forall ch | ch in r ensures ch in s {
      var i :| 0 <= i < |r| && r[i] == ch;
      assert t[i] == ch;
      assert s[k + i] == t[i];
    }
  }
}
