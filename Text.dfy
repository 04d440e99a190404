/** Character classes, decimal digits and whitespace trimming. */
module Text {

  /** Whitespace as folding whitespace of RFC 5322 sees it: space, tab, CR, LF. */
  predicate IsWs(c: char) {
    c == ' ' || c == '\t' || c == '\r' || c == '\n'
  }

  predicate IsDigit(c: char) {
    '0' <= c <= '9'
  }

  predicate AllWs(s: string) {
    forall i :: 0 <= i < |s| ==> IsWs(s[i])
  }

  function DigitValue(c: char): (d: nat)
    requires IsDigit(c)
    ensures d < 10
  {
    (c as int) - ('0' as int)
  }

  function DigitChar(d: nat): (c: char)
    requires d < 10
    ensures IsDigit(c) && DigitValue(c) == d
  {
    (('0' as int) + d) as char
  }

  function Pow10(n: nat): (p: nat)
    ensures p >= 1
  {
    if n == 0 then 1 else 10 * Pow10(n - 1)
  }

  /** The n-digit decimal rendering of v, with leading zeros (Ruby's "%0nd"). */
  function PadDigits(v: nat, n: nat): (s: string)
    ensures |s| == n
    ensures forall i :: 0 <= i < n ==> IsDigit(s[i])
  {
    if n == 0 then "" else PadDigits(v / 10, n - 1) + [DigitChar(v % 10)]
  }

  /** A string with no whitespace at either end. */
  predicate IsTrimmed(s: string) {
    s == [] || (!IsWs(s[0]) && !IsWs(s[|s| - 1]))
  }

  /** s with its leading whitespace removed. */
  function TrimLeft(s: string): (r: string)
    ensures |r| <= |s| && r == s[|s| - |r|..]
    ensures r == [] || !IsWs(r[0])
    ensures AllWs(s[..|s| - |r|])
    decreases |s|
  {
    if |s| > 0 && IsWs(s[0]) then
      var r := TrimLeft(s[1..]);
      assert s[..|s| - |r|] == [s[0]] + s[1..][..|s| - 1 - |r|];
      r
    else s
  }

  /** s with its trailing whitespace removed. */
  function TrimRight(s: string): (r: string)
    ensures |r| <= |s| && r == s[..|r|]
    ensures r == [] || !IsWs(r[|r| - 1])
    ensures AllWs(s[|r|..])
    decreases |s|
  {
    if |s| > 0 && IsWs(s[|s| - 1]) then
      var r := TrimRight(s[..|s| - 1]);
      assert s[|r|..] == s[..|s| - 1][|r|..] + [s[|s| - 1]];
      r
    else s
  }

  /** s with whitespace removed at both ends (Ruby's String#strip). */
  function Trim(s: string): (r: string)
    ensures IsTrimmed(r)
  {
    var l := TrimLeft(s);
    var r := TrimRight(l);
    assert r != [] ==> r[0] == l[0];
    r
  }

  /** Trim keeps exactly the middle of s: the result is trimmed and only whitespace was cut. */
  lemma TrimIsInfix(s: string)
    ensures IsTrimmed(Trim(s)) && WsAround(s, |s| - |TrimLeft(s)|, Trim(s))
  {
    var l := TrimLeft(s);
    var r := TrimRight(l);
    InnerPart(s, l, r);
  }

  /** r stands in s at k, with only whitespace before and after it. */
  predicate WsAround(s: string, k: nat, r: string) {
    k + |r| <= |s| && s[k..k + |r|] == r && AllWs(s[..k]) && AllWs(s[k + |r|..])
  }

  /** r, cut from the front of l, which is cut from the back of s, with only whitespace cut. */
  lemma InnerPart(s: string, l: string, r: string)
    requires |l| <= |s| && l == s[|s| - |l|..] && AllWs(s[..|s| - |l|]) && (l == [] || !IsWs(l[0]))
    requires |r| <= |l| && r == l[..|r|] && AllWs(l[|r|..]) && (r == [] || !IsWs(r[|r| - 1]))
    ensures IsTrimmed(r) && WsAround(s, |s| - |l|, r)
  {
    var k := |s| - |l|;
    assert s[k..][..|r|] == s[k..k + |r|];
    assert s[k..][|r|..] == s[k + |r|..];
    assert r != [] ==> r[0] == l[0];
  }

  lemma TrimOfTrimmed(s: string)
    requires IsTrimmed(s)
    ensures Trim(s) == s
  {
  }

  /** Whitespace in front of a trimmed string is all that Trim removes. */
  lemma {:induction false} TrimAfterWs(w: string, s: string)
    requires AllWs(w) && IsTrimmed(s)
    ensures Trim(w + s) == s
  {
    if w == [] {
      assert w + s == s;
    } else {
      assert (w + s)[1..] == w[1..] + s;
      TrimAfterWs(w[1..], s);
    }
  }

  /** A string that starts with no whitespace loses only trailing whitespace to Trim. */
  lemma TrimKeepsStart(a: string)
    requires a == [] || !IsWs(a[0])
    ensures |Trim(a)| <= |a| && a == Trim(a) + a[|Trim(a)|..] && AllWs(a[|Trim(a)|..])
  {
    TrimIsInfix(a);
    assert |a| - |TrimLeft(a)| == 0;
  }

  /** A string that ends with no whitespace loses only leading whitespace to Trim. */
  lemma TrimKeepsEnd(b: string)
    requires b == [] || !IsWs(b[|b| - 1])
    ensures |Trim(b)| <= |b| && b == b[..|b| - |Trim(b)|] + Trim(b) && AllWs(b[..|b| - |Trim(b)|])
  {
    TrimIsInfix(b);
    var k := |b| - |TrimLeft(b)|;
    assert k + |Trim(b)| == |b|;
  }
}
