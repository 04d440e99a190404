/**
  The lexical context of a position in a header value: outside any token
  (top level), inside a quoted string, inside a bracketed domain literal, or
  inside a parenthesised comment (which nests). A backslash quotes the next
  character inside quoted strings and comments (the quoted-pair of RFC 5322,
  section 3.2.1). Only top-level characters act as separators.
*/
module Lexical {
  import opened Wrappers
  import opened Text

  datatype Context =
    | Top
    | Quoted(escaped: bool)
    | Literal
    | Comment(depth: nat, escaped: bool)

  /** The context after reading ch in context c. */
  function Step(c: Context, ch: char): Context {
    match c
    case Top =>
      if ch == '"' then Quoted(false)
      else if ch == '[' then Literal
      else if ch == '(' then Comment(1, false)
      else Top
    case Quoted(esc) =>
      if esc then Quoted(false)
      else if ch == '\\' then Quoted(true)
      else if ch == '"' then Top
      else Quoted(false)
    case Literal =>
      if ch == ']' then Top else Literal
    case Comment(d, esc) =>
      if esc then Comment(d, false)
      else if ch == '\\' then Comment(d, true)
      else if ch == '(' then Comment(d + 1, false)
      else if ch == ')' then (if d <= 1 then Top else Comment(d - 1, false))
      else Comment(d, false)
  }

  /** The context after reading all of s, starting in context c. */
  function Run(c: Context, s: string): Context
    decreases |s|
  {
    if s == [] then c else Run(Step(c, s[0]), s[1..])
  }

  /** Reading a concatenation is reading its parts in turn. */
  lemma {:induction false} RunConcat(c: Context, a: string, b: string)
    ensures Run(c, a + b) == Run(Run(c, a), b)
    decreases |a|
  {
    if a == [] {
      assert a + b == b;
    } else {
      assert (a + b)[1..] == a[1..] + b;
      RunConcat(Step(c, a[0]), a[1..], b);
    }
  }

  /** Whitespace never brings a context back to, or away from, top level. */
  lemma StepWs(c: Context, ch: char)
    requires IsWs(ch)
    ensures (Step(c, ch) == Top) <==> (c == Top)
  {
  }

  lemma {:induction false} RunWs(c: Context, w: string)
    requires AllWs(w)
    ensures (Run(c, w) == Top) <==> (c == Top)
    decreases |w|
  {
    if w != [] {
      StepWs(c, w[0]);
      RunWs(Step(c, w[0]), w[1..]);
    }
  }

  /**
    The index of the last occurrence of ch in s that is read at top level,
    when reading starts in context c.
  */
  function LastTop(c: Context, s: string, ch: char): (r: Option<nat>)
    ensures r.Some? ==> r.value < |s| && s[r.value] == ch
    decreases |s|
  {
    if s == [] then None
    else match LastTop(Step(c, s[0]), s[1..], ch)
      case Some(j) => Some(j + 1)
      case None => if c == Top && s[0] == ch then Some(0) else None
  }

  /** Reading ch at top level at index i of s. */
  predicate TopAt(c: Context, s: string, i: nat, ch: char)
    requires i < |s|
  {
    s[i] == ch && Run(c, s[..i]) == Top
  }

  /** LastTop finds the last top-level occurrence, and None means there is none. */
  lemma {:induction false} LastTopSpec(c: Context, s: string, ch: char)
    ensures LastTop(c, s, ch).Some? ==> TopAt(c, s, LastTop(c, s, ch).value, ch)
    ensures LastTop(c, s, ch).Some? ==>
      forall j :: LastTop(c, s, ch).value < j < |s| ==> !TopAt(c, s, j, ch)
    ensures LastTop(c, s, ch).None? ==> forall j :: 0 <= j < |s| ==> !TopAt(c, s, j, ch)
    decreases |s|
  {
    if s != [] {
      var c' := Step(c, s[0]);
      var t := s[1..];
      LastTopSpec(c', t, ch);
      forall j | 0 < j <= |t|
        ensures Run(c, s[..j]) == Run(c', t[..j - 1])
      {
        assert s[..j][1..] == t[..j - 1];
      }
      forall j | 0 < j < |s|
        ensures TopAt(c, s, j, ch) == TopAt(c', t, j - 1, ch)
      {
        assert s[..j][1..] == t[..j - 1];
      }
    }
  }

  /** The last top-level occurrence of ch in a + b, from those of its parts. */
  lemma {:induction false} LastTopConcat(c: Context, a: string, b: string, ch: char)
    ensures LastTop(c, a + b, ch) ==
      match LastTop(Run(c, a), b, ch)
      case Some(j) => Some(|a| + j)
      case None => LastTop(c, a, ch)
    decreases |a|
  {
    if a == [] {
      assert a + b == b;
    } else {
      assert (a + b)[0] == a[0];
      assert (a + b)[1..] == a[1..] + b;
      LastTopConcat(Step(c, a[0]), a[1..], b, ch);
    }
  }

  /** When b holds a top-level ch, the last one of a + b is in b. */
  lemma LastTopAfter(c: Context, a: string, b: string, ch: char, j: nat)
    requires LastTop(Run(c, a), b, ch) == Some(j)
    ensures LastTop(c, a + b, ch) == Some(|a| + j)
  {
    LastTopConcat(c, a, b, ch);
  }

  /** When b holds no top-level ch, the last one of a + b is that of a. */
  lemma LastTopBefore(c: Context, a: string, b: string, ch: char)
    requires LastTop(Run(c, a), b, ch).None?
    ensures LastTop(c, a + b, ch) == LastTop(c, a, ch)
  {
    LastTopConcat(c, a, b, ch);
  }

  /** A character that does not occur cannot occur at top level. */
  lemma {:induction false} LastTopAbsent(c: Context, s: string, ch: char)
    requires ch !in s
    ensures LastTop(c, s, ch).None?
    decreases |s|
  {
    if s != [] {
      assert s[0] != ch;
      assert ch !in s[1..] by {
        forall k | 0 <= k < |s| - 1 ensures s[1..][k] != ch {
          assert s[1..][k] == s[k + 1];
        }
      }
      LastTopAbsent(Step(c, s[0]), s[1..], ch);
    }
  }
}
