/** The string operations of the keys: white space, `trim` and ASCII lower case. */
module Text {

  /** WhiteSpace and LineTerminator of sections 12.2 and 12.3 of ECMA-262. */
  predicate IsSpace(c: char) {
    '\t' <= c <= '\r' || c == ' ' || c == '\U{A0}' || c == '\U{1680}' || '\U{2000}' <= c <= '\U{200A}'
    || c == '\U{2028}' || c == '\U{2029}' || c == '\U{202F}' || c == '\U{205F}' || c == '\U{3000}' || c == '\U{FEFF}'
  }

  function TrimStart(s: string): string {
    if s != "" && IsSpace(s[0]) then TrimStart(s[1..]) else s
  }

  function TrimEnd(s: string): string {
    if s != "" && IsSpace(s[|s| - 1]) then TrimEnd(s[..|s| - 1]) else s
  }

  function Trim(s: string): string {
    TrimEnd(TrimStart(s))
  }

  function LowerChar(c: char): char {
    if 'A' <= c <= 'Z' then c + 32 as char else c
  }

  function Lower(s: string): (t: string)
    ensures |t| == |s|
    ensures forall i :: 0 <= i < |s| ==> t[i] == LowerChar(s[i])
  {
    if s == "" then "" else [LowerChar(s[0])] + Lower(s[1..])
  }

  lemma {:induction false} TrimStartShape(s: string)
    ensures |TrimStart(s)| <= |s| && TrimStart(s) == s[|s| - |TrimStart(s)|..]
    ensures TrimStart(s) == "" || !IsSpace(TrimStart(s)[0])
  {
    if s != "" && IsSpace(s[0]) {
      TrimStartShape(s[1..]);
    }
  }

  lemma {:induction false} TrimEndShape(s: string)
    ensures |TrimEnd(s)| <= |s| && TrimEnd(s) == s[..|TrimEnd(s)|]
    ensures TrimEnd(s) == "" || !IsSpace(TrimEnd(s)[|TrimEnd(s)| - 1])
  {
    if s != "" && IsSpace(s[|s| - 1]) {
      TrimEndShape(s[..|s| - 1]);
    }
  }

  lemma TrimTwice(s: string)
    ensures Trim(Trim(s)) == Trim(s)
  {
    TrimStartShape(s);
    TrimEndShape(TrimStart(s));
    var t := Trim(s);
    assert t != "" ==> t[0] == TrimStart(s)[0];
  }

  lemma LowerAddsNoBar(s: string)
    requires '|' !in s
    ensures '|' !in Lower(s)
  {
    assert forall i :: 0 <= i < |s| ==> LowerChar(s[i]) != '|';
  }

  lemma LowerTwice(s: string)
    ensures Lower(Lower(s)) == Lower(s)
  {
  }

  /** A part of a text in lower case is in lower case. */
  lemma LowerPart(s: string, lo: nat, hi: nat)
    requires lo <= hi <= |s| && Lower(s) == s
    ensures Lower(s[lo..hi]) == s[lo..hi]
  {
    assert forall i :: lo <= i < hi ==> LowerChar(s[i]) == s[i];
  }

  lemma LowerJoin(a: string, b: string)
    ensures Lower(a + b) == Lower(a) + Lower(b)
  {
  }

  /* What the operations mean. */

  predicate AllSpace(s: string) {
    forall i :: 0 <= i < |s| ==> IsSpace(s[i])
  }

  /** The text without the white space at its two ends. */
  ghost predicate TrimsTo(s: string, t: string) {
    && (t == "" || (!IsSpace(t[0]) && !IsSpace(t[|t| - 1])))
    && exists lo: nat, hi: nat :: Cuts(s, t, lo, hi)
  }

  /** The text is a part of the other one, with nothing but white space around it. */
  predicate Cuts(s: string, t: string, lo: nat, hi: nat) {
    lo <= hi <= |s| && t == s[lo..hi] && AllSpace(s[..lo]) && AllSpace(s[hi..])
  }

  lemma {:induction false} TrimStartDropsSpace(s: string)
    ensures |TrimStart(s)| <= |s| && AllSpace(s[..|s| - |TrimStart(s)|])
  {
    if s != "" && IsSpace(s[0]) {
      TrimStartDropsSpace(s[1..]);
      TrimStartShape(s[1..]);
      var k := |s| - |TrimStart(s)|;
      assert s[..k] == [s[0]] + s[1..][..k - 1];
    }
  }

  lemma {:induction false} TrimEndDropsSpace(s: string)
    ensures |TrimEnd(s)| <= |s| && AllSpace(s[|TrimEnd(s)|..])
  {
    if s != "" && IsSpace(s[|s| - 1]) {
      var n := |s| - 1;
      TrimEndDropsSpace(s[..n]);
      TrimEndShape(s[..n]);
      assert s[|TrimEnd(s)|..] == s[..n][|TrimEnd(s)|..] + [s[n]];
    }
  }

  lemma TrimTrims(s: string)
    ensures TrimsTo(s, Trim(s))
  {
    hide TrimStart, TrimEnd, IsSpace;
    TrimStartShape(s);
    TrimStartDropsSpace(s);
    var u := TrimStart(s);
    TrimEndShape(u);
    TrimEndDropsSpace(u);
    var t, lo := TrimEnd(u), |s| - |u|;
    assert t != "" ==> t[0] == u[0];
    assert s[lo + |t|..] == u[|t|..];
    assert Cuts(s, t, lo, lo + |t|);
  }

  lemma CutsAlike(s: string, t: string, lo: nat, hi: nat, u: string, from: nat, to: nat)
    requires Cuts(s, t, lo, hi) && Cuts(s, u, from, to)
    requires t == "" || (!IsSpace(t[0]) && !IsSpace(t[|t| - 1]))
    ensures t != "" ==> u != "" && from <= lo && hi <= to
  {
    hide IsSpace;
    assert forall i :: 0 <= i < from ==> s[..from][i] == s[i];
    assert forall i :: to <= i < |s| ==> s[to..][i - to] == s[i];
    assert t != "" ==> s[lo] == t[0] && s[hi - 1] == t[|t| - 1];
  }

  /** `Trim` is the only text that the ends' white space leaves. */
  lemma TrimIsTheRest(s: string, t: string)
    ensures TrimsTo(s, t) <==> t == Trim(s)
  {
    hide IsSpace, Trim, AllSpace;
    TrimTrims(s);
    if TrimsTo(s, t) {
      var u := Trim(s);
      var lo: nat, hi: nat :| Cuts(s, t, lo, hi);
      var from: nat, to: nat :| Cuts(s, u, from, to);
      CutsAlike(s, t, lo, hi, u, from, to);
      CutsAlike(s, u, from, to, t, lo, hi);
    }
  }

  /** The same letter of the basic Latin alphabet in either case, or the same character. */
  predicate SameLetter(c: char, d: char) {
    c == d || ('A' <= c <= 'Z' && d as int == c as int + 32) || ('A' <= d <= 'Z' && c as int == d as int + 32)
  }

  predicate SameButCase(a: string, b: string) {
    |a| == |b| && forall i :: 0 <= i < |a| ==> SameLetter(a[i], b[i])
  }

  lemma LowerCharIffSameLetter(c: char, d: char)
    ensures LowerChar(c) == LowerChar(d) <==> SameLetter(c, d)
  {
  }

  lemma LowerIffSameButCase(a: string, b: string)
    ensures Lower(a) == Lower(b) <==> SameButCase(a, b)
  {
    hide LowerChar, SameLetter;
    forall i | 0 <= i < |a| && i < |b|
      ensures LowerChar(a[i]) == LowerChar(b[i]) <==> SameLetter(a[i], b[i])
    {
      LowerCharIffSameLetter(a[i], b[i]);
    }
    if Lower(a) == Lower(b) {
      forall i | 0 <= i < |a|
        ensures SameLetter(a[i], b[i])
      {
        assert Lower(a)[i] == Lower(b)[i];
      }
    }
  }

  lemma LowerHasNoCapital(s: string)
    ensures forall i :: 0 <= i < |s| ==> !('A' <= Lower(s)[i] <= 'Z')
  {
    assert forall i :: 0 <= i < |s| ==> !('A' <= LowerChar(s[i]) <= 'Z');
  }

  lemma LowerWithoutCapitals(s: string)
    requires forall i :: 0 <= i < |s| ==> !('A' <= s[i] <= 'Z')
    ensures Lower(s) == s
  {
  }

  lemma LowerKeepsSpace(c: char)
    ensures IsSpace(LowerChar(c)) <==> IsSpace(c)
  {
  }

  lemma LowerKeepsSpaces(s: string)
    ensures AllSpace(Lower(s)) <==> AllSpace(s)
  {
    hide IsSpace, LowerChar;
    forall i | 0 <= i < |s|
      ensures IsSpace(Lower(s)[i]) <==> IsSpace(s[i])
    {
      LowerKeepsSpace(s[i]);
    }
  }

  /** Lower case and trimming do not get in each other's way. */
  lemma TrimOfLower(s: string)
    ensures Trim(Lower(s)) == Lower(Trim(s))
  {
    hide IsSpace, Trim, LowerChar, AllSpace;
    var t := Trim(s);
    TrimTrims(s);
    var lo: nat, hi: nat :| Cuts(s, t, lo, hi);
    LowerKeepsSpaces(s[..lo]);
    LowerKeepsSpaces(s[hi..]);
    assert Lower(t) == Lower(s)[lo..hi] && Lower(s[..lo]) == Lower(s)[..lo] && Lower(s[hi..]) == Lower(s)[hi..];
    assert Cuts(Lower(s), Lower(t), lo, hi);
    if t != "" {
      LowerKeepsSpace(t[0]);
      LowerKeepsSpace(t[|t| - 1]);
    }
    TrimIsTheRest(Lower(s), Lower(t));
  }

  /** The code points of white space and line ends, one by one. */
  const SPACES: set<int> := {
    0x9, 0xA, 0xB, 0xC, 0xD, 0x20, 0xA0, 0x1680,
    0x2000, 0x2001, 0x2002, 0x2003, 0x2004, 0x2005, 0x2006, 0x2007, 0x2008, 0x2009, 0x200A,
    0x2028, 0x2029, 0x202F, 0x205F, 0x3000, 0xFEFF}

  lemma SpacesOneByOne(c: char)
    ensures IsSpace(c) <==> c as int in SPACES
  {
  }

  lemma NoBarAfter(h: string, s: string, i: nat)
    requires '|' !in s && i < |h + "|" + s| && (h + "|" + s)[i] == '|'
    ensures i <= |h|
  {
    var k := h + "|" + s;
    assert forall j :: |h| < j < |k| ==> k[j] == s[j - |h| - 1];
  }

  /** The last bar decides, when nothing after it has one. */
  lemma SplitAtLastBar(h1: string, s1: string, h2: string, s2: string)
    requires h1 + "|" + s1 == h2 + "|" + s2
    requires '|' !in s1 && '|' !in s2
    ensures h1 == h2 && s1 == s2
  {
    var k := h1 + "|" + s1;
    assert k[|h1|] == '|' && k[|h2|] == '|';
    NoBarAfter(h1, s1, |h2|);
    NoBarAfter(h2, s2, |h1|);
    assert k[..|h1|] == h1 && k[..|h2|] == h2;
    assert k[|h1| + 1..] == s1 && k[|h2| + 1..] == s2;
  }

  /** The first separator decides, when nothing before it has one. */
  lemma SplitAtFirst(sep: char, h1: string, s1: string, h2: string, s2: string)
    requires h1 + [sep] + s1 == h2 + [sep] + s2
    requires sep !in h1 && sep !in h2
    ensures h1 == h2 && s1 == s2
  {
    var k := h1 + [sep] + s1;
    assert k[|h1|] == sep && k[|h2|] == sep;
    assert forall j :: 0 <= j < |h1| ==> k[j] == h1[j];
    assert forall j :: 0 <= j < |h2| ==> k[j] == h2[j];
    assert k[..|h1|] == h1 && k[..|h2|] == h2;
    assert k[|h1| + 1..] == s1 && k[|h2| + 1..] == s2;
  }
}
