/** application/x-www-form-urlencoded: the serializer and the parser of sections
    5.2 and 5.1 of the WHATWG URL Standard, and the edge function's own encoder,
    which reaches the same text by six replacements on `encodeURIComponent`. */
module FormUrlencoded {
  import opened Bytes
  import opened Options
  import opened Unicode

  datatype Pair = Pair(name: JsString, value: JsString)

  const SPACE: Byte := 0x20
  const PERCENT: Byte := 0x25
  const AMPERSAND: Byte := 0x26
  const PLUS: Byte := 0x2B
  const EQUALS: Byte := 0x3D

  predicate Alphanumeric(b: Byte) {
    0x30 <= b <= 0x39 || 0x41 <= b <= 0x5A || 0x61 <= b <= 0x7A
  }

  function HexDigit(n: int): Byte
    requires 0 <= n < 16
  {
    if n < 10 then 0x30 + n else 0x41 + (n - 10)
  }

  function PercentEncode(b: Byte): seq<Byte> {
    [PERCENT, HexDigit(b / 16), HexDigit(b % 16)]
  }

  /* The Standard's serializer. */

  /** Outside the application/x-www-form-urlencoded percent-encode set:
      alphanumerics and * - . _ */
  predicate FormLiteral(b: Byte) {
    Alphanumeric(b) || b == 0x2A || b == 0x2D || b == 0x2E || b == 0x5F
  }

  function FormByte(b: Byte): seq<Byte> {
    if b == SPACE then [PLUS] else if FormLiteral(b) then [b] else PercentEncode(b)
  }

  function FormBytes(bs: seq<Byte>): seq<Byte> {
    if bs == [] then [] else FormByte(bs[0]) + FormBytes(bs[1..])
  }

  function FormText(s: JsString): seq<Byte>
    requires WellFormed(s)
  {
    FormBytes(Utf8(ToScalars(s).value))
  }

  predicate WellFormedPairs(pairs: seq<Pair>) {
    forall i :: 0 <= i < |pairs| ==> WellFormed(pairs[i].name) && WellFormed(pairs[i].value)
  }

  function SerializePair(p: Pair): seq<Byte>
    requires WellFormed(p.name) && WellFormed(p.value)
  {
    FormText(p.name) + [EQUALS] + FormText(p.value)
  }

  function Serialize(pairs: seq<Pair>): seq<Byte>
    requires WellFormedPairs(pairs)
  {
    if pairs == [] then []
    else
      var n := |pairs| - 1;
      (if n == 0 then [] else Serialize(pairs[..n]) + [AMPERSAND]) + SerializePair(pairs[n])
  }

  /* The Standard's parser. */

  function IndexOf(bs: seq<Byte>, b: Byte): (i: nat)
    ensures i <= |bs| && b !in bs[..i]
    ensures i < |bs| ==> bs[i] == b
  {
    if bs == [] || bs[0] == b then 0 else
      var i := 1 + IndexOf(bs[1..], b);
      assert bs[..i] == [bs[0]] + bs[1..][..i - 1];
      i
  }

  function PlusToSpace(bs: seq<Byte>): seq<Byte> {
    if bs == [] then [] else [if bs[0] == PLUS then SPACE else bs[0]] + PlusToSpace(bs[1..])
  }

  function HexValue(b: Byte): Option<nat> {
    if 0x30 <= b <= 0x39 then Some(b - 0x30)
    else if 0x41 <= b <= 0x46 then Some(b - 0x41 + 10)
    else if 0x61 <= b <= 0x66 then Some(b - 0x61 + 10)
    else None
  }

  function PercentDecode(bs: seq<Byte>): seq<Byte> {
    if bs == [] then []
    else if bs[0] == PERCENT && |bs| >= 3 && HexValue(bs[1]).Some? && HexValue(bs[2]).Some? then
      var v: int := HexValue(bs[1]).value * 16 + HexValue(bs[2]).value;
      assert HexValue(bs[1]).value < 16 && HexValue(bs[2]).value < 16;
      [v as Byte] + PercentDecode(bs[3..])
    else [bs[0]] + PercentDecode(bs[1..])
  }

  function FormDecode(bs: seq<Byte>): JsString {
    FromScalars(Utf8Decode(PercentDecode(PlusToSpace(bs))))
  }

  function ParsePair(bs: seq<Byte>): Pair {
    var i := IndexOf(bs, EQUALS);
    Pair(FormDecode(bs[..i]), FormDecode(if i < |bs| then bs[i + 1..] else []))
  }

  function Parse(bs: seq<Byte>): seq<Pair> {
    if bs == [] then []
    else
      var i := IndexOf(bs, AMPERSAND);
      (if i == 0 then [] else [ParsePair(bs[..i])])
      + (if i < |bs| then Parse(bs[i + 1..]) else [])
  }

  /* The edge function's encoder. */

  /** Characters `encodeURIComponent` leaves alone (section 19.2.6 of ECMA-262). */
  predicate UriUnreserved(u: CodeUnit) {
    u < 0x80 && (Alphanumeric(u) || u == 0x2D || u == 0x5F || u == 0x2E || u == 0x21
                 || u == 0x7E || u == 0x2A || u == 0x27 || u == 0x28 || u == 0x29)
  }

  function PercentEncodeAll(bs: seq<Byte>): JsString {
    if bs == [] then [] else PercentEncode(bs[0]) + PercentEncodeAll(bs[1..])
  }

  /** None is the URIError thrown on a lone surrogate. */
  function EncodeURIComponent(s: JsString): Option<JsString> {
    if s == [] then Some([])
    else if UriUnreserved(s[0]) then
      var rest :- EncodeURIComponent(s[1..]);
      Some([s[0]] + rest)
    else if IsTrail(s[0]) then None
    else if IsLead(s[0]) then
      if |s| == 1 || !IsTrail(s[1]) then None
      else
        var rest :- EncodeURIComponent(s[2..]);
        Some(PercentEncodeAll(Utf8Scalar(FromPair(s[0], s[1]))) + rest)
    else
      var rest :- EncodeURIComponent(s[1..]);
      Some(PercentEncodeAll(Utf8Scalar(s[0])) + rest)
  }

  /** `String.prototype.replace` with a global pattern of literal characters. */
  function ReplaceAll(s: JsString, pattern: JsString, sub: JsString): JsString
    requires pattern != []
  {
    if |s| < |pattern| then s
    else if s[..|pattern|] == pattern then sub + ReplaceAll(s[|pattern|..], pattern, sub)
    else [s[0]] + ReplaceAll(s[1..], pattern, sub)
  }

  const PERCENT_20: JsString := [PERCENT, 0x32, 0x30]

  /** The five single characters still to escape: ! ' ( ) ~ */
  function ReplaceMarks(s: JsString): JsString {
    var s1 := ReplaceAll(s, [0x21], [PERCENT, 0x32, 0x31]);
    var s2 := ReplaceAll(s1, [0x27], [PERCENT, 0x32, 0x37]);
    var s3 := ReplaceAll(s2, [0x28], [PERCENT, 0x32, 0x38]);
    var s4 := ReplaceAll(s3, [0x29], [PERCENT, 0x32, 0x39]);
    ReplaceAll(s4, [0x7E], [PERCENT, 0x37, 0x45])
  }

  function FormEncode(s: JsString): Option<JsString> {
    var e :- EncodeURIComponent(s);
    Some(ReplaceMarks(ReplaceAll(e, PERCENT_20, [PLUS])))
  }

  /* encodeURIComponent, byte by byte. */

  function UriByte(b: Byte): JsString {
    if UriUnreserved(b) then [b] else PercentEncode(b)
  }

  function UriBytes(bs: seq<Byte>): JsString {
    if bs == [] then [] else UriByte(bs[0]) + UriBytes(bs[1..])
  }

  lemma {:induction false} UriBytesConcat(a: seq<Byte>, b: seq<Byte>)
    ensures UriBytes(a + b) == UriBytes(a) + UriBytes(b)
  {
    if a == [] {
      assert a + b == b;
    } else {
      assert (a + b)[1..] == a[1..] + b;
      UriBytesConcat(a[1..], b);
    }
  }

  lemma {:induction false} HighBytesAreEscaped(bs: seq<Byte>)
    requires forall b <- bs :: !UriUnreserved(b)
    ensures UriBytes(bs) == PercentEncodeAll(bs)
  {
    if bs != [] {
      HighBytesAreEscaped(bs[1..]);
    }
  }

  lemma {:induction false} EncodeURIComponentIsBytewise(s: JsString)
    ensures EncodeURIComponent(s).Some? <==> WellFormed(s)
    ensures WellFormed(s) ==> EncodeURIComponent(s).value == UriBytes(Utf8(ToScalars(s).value))
  {
    if s == [] {
    } else if IsLead(s[0]) {
      if |s| > 1 && IsTrail(s[1]) {
        EncodeURIComponentIsBytewise(s[2..]);
        if WellFormed(s) {
          EncodeScalarBytewise(FromPair(s[0], s[1]), s[2..], s);
        }
      }
    } else if !IsTrail(s[0]) {
      EncodeURIComponentIsBytewise(s[1..]);
      if WellFormed(s) {
        EncodeScalarBytewise(s[0], s[1..], s);
      }
    }
  }

  lemma EncodeScalarBytewise(c: Scalar, rest: JsString, s: JsString)
    requires WellFormed(rest) && ToScalars(s) == Some([c] + ToScalars(rest).value)
    ensures UriBytes(Utf8(ToScalars(s).value))
         == (if UriUnreserved(if c < 0x80 then c else 0x80) then [c] else PercentEncodeAll(Utf8Scalar(c)))
            + UriBytes(Utf8(ToScalars(rest).value))
  {
    var cs := ToScalars(s).value;
    assert cs[1..] == ToScalars(rest).value;
    UriBytesConcat(Utf8Scalar(c), Utf8(cs[1..]));
    if c < 0x80 && UriUnreserved(c) {
      assert UriBytes([c]) == [c] + UriBytes([]);
    } else {
      HighBytesAreEscaped(Utf8Scalar(c));
    }
  }

  /* The six replacements, byte by byte. */

  lemma {:induction false} ReplaceCharConcat(a: JsString, b: JsString, ch: CodeUnit, sub: JsString)
    ensures ReplaceAll(a + b, [ch], sub) == ReplaceAll(a, [ch], sub) + ReplaceAll(b, [ch], sub)
  {
    if a == [] {
      assert a + b == b;
    } else {
      assert (a + b)[1..] == a[1..] + b;
      assert (a + b)[..1] == a[..1];
      ReplaceCharConcat(a[1..], b, ch, sub);
    }
  }

  lemma ReplaceMarksConcat(a: JsString, b: JsString)
    ensures ReplaceMarks(a + b) == ReplaceMarks(a) + ReplaceMarks(b)
  {
    ReplaceCharConcat(a, b, 0x21, [PERCENT, 0x32, 0x31]);
    var a1, b1 := ReplaceAll(a, [0x21], [PERCENT, 0x32, 0x31]), ReplaceAll(b, [0x21], [PERCENT, 0x32, 0x31]);
    ReplaceCharConcat(a1, b1, 0x27, [PERCENT, 0x32, 0x37]);
    var a2, b2 := ReplaceAll(a1, [0x27], [PERCENT, 0x32, 0x37]), ReplaceAll(b1, [0x27], [PERCENT, 0x32, 0x37]);
    ReplaceCharConcat(a2, b2, 0x28, [PERCENT, 0x32, 0x38]);
    var a3, b3 := ReplaceAll(a2, [0x28], [PERCENT, 0x32, 0x38]), ReplaceAll(b2, [0x28], [PERCENT, 0x32, 0x38]);
    ReplaceCharConcat(a3, b3, 0x29, [PERCENT, 0x32, 0x39]);
    var a4, b4 := ReplaceAll(a3, [0x29], [PERCENT, 0x32, 0x39]), ReplaceAll(b3, [0x29], [PERCENT, 0x32, 0x39]);
    ReplaceCharConcat(a4, b4, 0x7E, [PERCENT, 0x37, 0x45]);
  }

  lemma ReplaceOneChar(u: CodeUnit, ch: CodeUnit, sub: JsString)
    ensures ReplaceAll([u], [ch], sub) == if u == ch then sub else [u]
  {
    assert [u][..1] == [u];
    assert ReplaceAll([], [ch], sub) == [];
    assert sub + [] == sub;
  }

  lemma ReplaceAbsentChar(s: JsString, ch: CodeUnit, sub: JsString)
    requires ch !in s
    ensures ReplaceAll(s, [ch], sub) == s
  {
    if s != [] {
      ReplaceAbsentChar(s[1..], ch, sub);
      assert s[..1] == [s[0]];
    }
  }

  lemma ReplaceMarksKeeps(s: JsString)
    requires 0x21 !in s && 0x27 !in s && 0x28 !in s && 0x29 !in s && 0x7E !in s
    ensures ReplaceMarks(s) == s
  {
    ReplaceAbsentChar(s, 0x21, [PERCENT, 0x32, 0x31]);
    ReplaceAbsentChar(s, 0x27, [PERCENT, 0x32, 0x37]);
    ReplaceAbsentChar(s, 0x28, [PERCENT, 0x32, 0x38]);
    ReplaceAbsentChar(s, 0x29, [PERCENT, 0x32, 0x39]);
    ReplaceAbsentChar(s, 0x7E, [PERCENT, 0x37, 0x45]);
  }

  lemma ReplaceMarksOne(u: Byte)
    ensures ReplaceMarks([u]) == if u in [0x21, 0x27, 0x28, 0x29, 0x7E] then PercentEncode(u) else [u]
  {
    hide ReplaceAll;
    ReplaceOneChar(u, 0x21, [PERCENT, 0x32, 0x31]);
    if u == 0x21 {
      ReplaceMarksKeeps([PERCENT, 0x32, 0x31]);
      ReplaceAbsentChar([PERCENT, 0x32, 0x31], 0x21, [PERCENT, 0x32, 0x31]);
    } else {
      ReplaceOneChar(u, 0x27, [PERCENT, 0x32, 0x37]);
      if u == 0x27 {
        ReplaceMarksKeeps([PERCENT, 0x32, 0x37]);
        ReplaceAbsentChar([PERCENT, 0x32, 0x37], 0x21, [PERCENT, 0x32, 0x31]);
        ReplaceAbsentChar([PERCENT, 0x32, 0x37], 0x27, [PERCENT, 0x32, 0x37]);
      } else {
        ReplaceOneChar(u, 0x28, [PERCENT, 0x32, 0x38]);
        if u == 0x28 {
          ReplaceAbsentChar([PERCENT, 0x32, 0x38], 0x29, [PERCENT, 0x32, 0x39]);
          ReplaceAbsentChar([PERCENT, 0x32, 0x38], 0x7E, [PERCENT, 0x37, 0x45]);
        } else {
          ReplaceOneChar(u, 0x29, [PERCENT, 0x32, 0x39]);
          if u == 0x29 {
            ReplaceAbsentChar([PERCENT, 0x32, 0x39], 0x7E, [PERCENT, 0x37, 0x45]);
          } else {
            ReplaceOneChar(u, 0x7E, [PERCENT, 0x37, 0x45]);
          }
        }
      }
    }
  }

  lemma HexDigitIsNoMark(n: int)
    requires 0 <= n < 16
    ensures Alphanumeric(HexDigit(n))
  {
  }

  lemma HexDigitsIdentify(b: Byte)
    requires HexDigit(b / 16) == 0x32 && HexDigit(b % 16) == 0x30
    ensures b == SPACE
  {
    assert b / 16 == 2 && b % 16 == 0;
  }

  /** Every `%` in the output starts an escape, so the three-character pattern
      never straddles two of them. */
  lemma ReplaceSpaceStep(b: Byte, rest: JsString)
    ensures ReplaceAll(UriByte(b) + rest, PERCENT_20, [PLUS])
         == (if b == SPACE then [PLUS] else UriByte(b)) + ReplaceAll(rest, PERCENT_20, [PLUS])
  {
    hide ReplaceAll;
    if UriUnreserved(b) {
      ReplaceSpaceSkips(b, rest);
    } else {
      HexDigitIsNoMark(b / 16);
      HexDigitIsNoMark(b % 16);
      if HexDigit(b / 16) == 0x32 && HexDigit(b % 16) == 0x30 {
        HexDigitsIdentify(b);
      }
      ReplaceSpaceEscape(HexDigit(b / 16), HexDigit(b % 16), rest);
    }
  }

  lemma ReplaceSpaceEscape(h: Byte, l: Byte, rest: JsString)
    requires h != PERCENT && l != PERCENT
    ensures ReplaceAll([PERCENT, h, l] + rest, PERCENT_20, [PLUS])
         == (if h == 0x32 && l == 0x30 then [PLUS] else [PERCENT, h, l]) + ReplaceAll(rest, PERCENT_20, [PLUS])
  {
    var s := [PERCENT, h, l] + rest;
    assert s[..3] == [PERCENT, h, l] && s[3..] == rest;
    if h != 0x32 || l != 0x30 {
      assert s[..3] != PERCENT_20 by {
        assert s[..3][1] == h && s[..3][2] == l;
      }
      assert s[1..] == [h] + ([l] + rest);
      ReplaceSpaceSkips(h, [l] + rest);
      ReplaceSpaceSkips(l, rest);
    }
  }

  lemma ReplaceSpaceSkips(u: CodeUnit, rest: JsString)
    requires u != PERCENT
    ensures ReplaceAll([u] + rest, PERCENT_20, [PLUS]) == [u] + ReplaceAll(rest, PERCENT_20, [PLUS])
  {
    var s := [u] + rest;
    assert s[1..] == rest;
    if |s| >= 3 {
      assert s[..3][0] == u;
    }
  }

  lemma ReplaceMarksByte(b: Byte)
    ensures ReplaceMarks(if b == SPACE then [PLUS] else UriByte(b)) == FormByte(b)
  {
    if b == SPACE {
      ReplaceMarksKeeps([PLUS]);
    } else if UriUnreserved(b) {
      ReplaceMarksOne(b);
    } else {
      HexDigitIsNoMark(b / 16);
      HexDigitIsNoMark(b % 16);
      ReplaceMarksKeeps(PercentEncode(b));
    }
  }

  lemma {:induction false} SixReplacementsAreBytewise(bs: seq<Byte>)
    ensures ReplaceMarks(ReplaceAll(UriBytes(bs), PERCENT_20, [PLUS])) == FormBytes(bs)
  {
    if bs == [] {
      ReplaceMarksKeeps([]);
    } else {
      ReplaceSpaceStep(bs[0], UriBytes(bs[1..]));
      ReplaceMarksConcat(if bs[0] == SPACE then [PLUS] else UriByte(bs[0]),
                         ReplaceAll(UriBytes(bs[1..]), PERCENT_20, [PLUS]));
      ReplaceMarksByte(bs[0]);
      SixReplacementsAreBytewise(bs[1..]);
    }
  }

  /** The edge encoder is the Standard's percent-encoding, and refuses exactly
      the strings with a lone surrogate. */
  lemma FormEncodeIsStandard(s: JsString)
    ensures FormEncode(s) == if WellFormed(s) then Some(FormText(s)) else None
  {
    EncodeURIComponentIsBytewise(s);
    if WellFormed(s) {
      SixReplacementsAreBytewise(Utf8(ToScalars(s).value));
    }
  }

  lemma SerializeNext(pairs: seq<Pair>, i: nat)
    requires i < |pairs| && WellFormedPairs(pairs[..i + 1])
    ensures WellFormedPairs(pairs[..i])
    ensures Serialize(pairs[..i + 1])
         == (if i == 0 then [] else Serialize(pairs[..i]) + [AMPERSAND]) + SerializePair(pairs[i])
  {
    hide SerializePair;
    assert pairs[..i + 1][..i] == pairs[..i];
  }

  /** The serialising loop: the Standard's serializer, or a throw when some name
      or value holds a lone surrogate. */
  method SerialiseParams(pairs: seq<Pair>) returns (out: Option<JsString>)
    ensures out == if WellFormedPairs(pairs) then Some(Serialize(pairs)) else None
  {
    hide FormEncode, FormText;
    var text: JsString := [];
    var i := 0;
    while i < |pairs|
      invariant 0 <= i <= |pairs|
      invariant WellFormedPairs(pairs[..i])
      invariant text == Serialize(pairs[..i])
    {
      FormEncodeIsStandard(pairs[i].name);
      FormEncodeIsStandard(pairs[i].value);
      var name, value := FormEncode(pairs[i].name), FormEncode(pairs[i].value);
      if name.None? || value.None? {
        return None;
      }
      SerializeNext(pairs, i);
      if i > 0 {
        text := text + [AMPERSAND];
      }
      text := text + (name.value + [EQUALS] + value.value);
      i := i + 1;
    }
    assert pairs[..i] == pairs;
    return Some(text);
  }

  /* Byte by byte. */

  /** A space becomes a plus, the ASCII letters and digits and * - . _ stay, and every
      other byte is a percent sign and its two upper-case hexadecimal digits. */
  lemma EachByteIsEncoded(b: Byte)
    ensures var c := b as char;
      FormByte(b) ==
        if c == ' ' then ['+' as Byte]
        else if '0' <= c <= '9' || 'A' <= c <= 'Z' || 'a' <= c <= 'z' || c in {'*', '-', '.', '_'} then [b]
        else ['%' as Byte, "0123456789ABCDEF"[b / 16] as Byte, "0123456789ABCDEF"[b % 16] as Byte]
  {
    HexDigitIsListed(b / 16);
    HexDigitIsListed(b % 16);
  }

  lemma HexDigitIsListed(n: int)
    requires 0 <= n < 16
    ensures HexDigit(n) == "0123456789ABCDEF"[n] as int
    ensures HexValue("0123456789ABCDEF"[n] as int) == HexValue("0123456789abcdef"[n] as int) == Some(n)
  {
  }

  function Decoded(bs: seq<Byte>): seq<Byte> {
    PercentDecode(PlusToSpace(bs))
  }

  /** In a name or a value a plus is a space, a percent sign and two hexadecimal digits of
      either case are the byte they spell, and everything else is itself, a percent sign
      without two digits included. */
  lemma EachByteIsDecoded(b: Byte, rest: seq<Byte>)
    ensures b == '+' as Byte ==> Decoded([b] + rest) == [' ' as Byte] + Decoded(rest)
    ensures b != '+' as Byte && b != '%' as Byte ==> Decoded([b] + rest) == [b] + Decoded(rest)
    ensures b == '%' as Byte && (|rest| < 2 || HexValue(rest[0]).None? || HexValue(rest[1]).None?) ==>
      Decoded([b] + rest) == [b] + Decoded(rest)
  {
    var s := [b] + rest;
    assert s[1..] == rest;
    var p := PlusToSpace(s);
    assert p[1..] == PlusToSpace(rest);
    PlusToSpaceKeepsLength(s);
    PlusToSpaceKeepsLength(rest);
    if |rest| >= 2 {
      assert rest == [rest[0], rest[1]] + rest[2..];
      assert p[1] == (if rest[0] == PLUS then SPACE else rest[0]) && PlusToSpace(rest)[1..] == PlusToSpace(rest[1..]);
      assert p[2] == if rest[1] == PLUS then SPACE else rest[1];
    }
  }

  lemma {:induction false} PlusToSpaceKeepsLength(bs: seq<Byte>)
    ensures |PlusToSpace(bs)| == |bs|
  {
    if bs != [] {
      PlusToSpaceKeepsLength(bs[1..]);
    }
  }

  lemma EscapeIsDecoded(m: int, n: int, upper: bool, rest: seq<Byte>)
    requires 0 <= m < 16 && 0 <= n < 16
    ensures var hex := if upper then "0123456789ABCDEF" else "0123456789abcdef";
      Decoded(['%' as Byte, hex[m] as Byte, hex[n] as Byte] + rest) == [16 * m + n] + Decoded(rest)
  {
    HexDigitIsListed(m);
    HexDigitIsListed(n);
    var hex := if upper then "0123456789ABCDEF" else "0123456789abcdef";
    var e: seq<Byte> := ['%' as Byte, hex[m] as Byte, hex[n] as Byte];
    assert hex[m] as Byte != PLUS && hex[n] as Byte != PLUS;
    PlusToSpaceConcat(e, rest);
    assert e[1..][1..][1..] == [] && e[1..][1..] == [e[2]];
    assert PlusToSpace([e[2]]) == [e[2]];
    assert PlusToSpace(e[1..]) == [e[1], e[2]];
    assert PlusToSpace(e) == e;
    assert (e + PlusToSpace(rest))[3..] == PlusToSpace(rest);
  }

  /** A segment is cut at its first equals sign; without one it is a name with an empty
      value. Other equals signs belong to the value. */
  lemma SegmentIsCutAtEquals(name: seq<Byte>, value: seq<Byte>)
    requires '=' as Byte !in name
    ensures ParsePair(name) == Pair(FormDecode(name), [])
    ensures ParsePair(name + ['=' as Byte] + value) == Pair(FormDecode(name), FormDecode(value))
  {
    hide FormDecode;
    IndexAfter(name, EQUALS, value);
    var s := name + [EQUALS] + value;
    assert s[..|name|] == name && s[|name| + 1..] == value;
    assert IndexOf(name, EQUALS) == |name| && name[..|name|] == name;
    NothingDecodes();
  }

  lemma NothingDecodes()
    ensures FormDecode([]) == []
  {
  }

  /* Round trip. */

  lemma {:induction false} PlusToSpaceConcat(a: seq<Byte>, b: seq<Byte>)
    ensures PlusToSpace(a + b) == PlusToSpace(a) + PlusToSpace(b)
  {
    if a == [] {
      assert a + b == b;
    } else {
      assert (a + b)[1..] == a[1..] + b;
      PlusToSpaceConcat(a[1..], b);
    }
  }

  lemma PlusToSpaceOfFormByte(b: Byte)
    ensures PlusToSpace(FormByte(b)) == if b == SPACE then [SPACE] else FormByte(b)
  {
    if b == SPACE || FormLiteral(b) {
      assert PlusToSpace([]) == [];
    } else {
      HexDigitIsNoMark(b / 16);
      HexDigitIsNoMark(b % 16);
      var e := PercentEncode(b);
      assert e[1..][1..][1..] == [];
      assert PlusToSpace(e[1..][1..]) == [e[2]];
      assert PlusToSpace(e[1..]) == [e[1], e[2]];
    }
  }

  lemma HexValueOfHexDigit(n: int)
    requires 0 <= n < 16
    ensures HexValue(HexDigit(n)) == Some(n)
  {
  }

  lemma PercentDecodeStep(b: Byte, rest: seq<Byte>)
    ensures PercentDecode((if b == SPACE then [SPACE] else FormByte(b)) + rest) == [b] + PercentDecode(rest)
  {
    var e: seq<Byte> := if b == SPACE then [SPACE] else FormByte(b);
    var s := e + rest;
    if b == SPACE || FormLiteral(b) {
      assert s[1..] == rest;
    } else {
      HexValueOfHexDigit(b / 16);
      HexValueOfHexDigit(b % 16);
      assert s[3..] == rest;
      assert b == b / 16 * 16 + b % 16;
    }
  }

  lemma {:induction false} FormBytesDecode(bs: seq<Byte>)
    ensures PercentDecode(PlusToSpace(FormBytes(bs))) == bs
  {
    if bs != [] {
      PlusToSpaceConcat(FormByte(bs[0]), FormBytes(bs[1..]));
      PlusToSpaceOfFormByte(bs[0]);
      PercentDecodeStep(bs[0], PlusToSpace(FormBytes(bs[1..])));
      FormBytesDecode(bs[1..]);
    }
  }

  lemma FormTextDecodes(s: JsString)
    requires WellFormed(s)
    ensures FormDecode(FormText(s)) == s
  {
    FormBytesDecode(Utf8(ToScalars(s).value));
    DecodeUtf8(ToScalars(s).value);
    FromScalarsOfToScalars(s);
  }

  lemma {:induction false} FormBytesAvoid(bs: seq<Byte>)
    ensures AMPERSAND !in FormBytes(bs) && EQUALS !in FormBytes(bs)
  {
    if bs != [] {
      HexDigitIsNoMark(bs[0] / 16);
      HexDigitIsNoMark(bs[0] % 16);
      FormBytesAvoid(bs[1..]);
    }
  }

  lemma {:induction false} IndexAfter(a: seq<Byte>, b: Byte, rest: seq<Byte>)
    requires b !in a
    ensures IndexOf(a + [b] + rest, b) == |a|
  {
    if a != [] {
      assert (a + [b] + rest)[1..] == a[1..] + [b] + rest;
      IndexAfter(a[1..], b, rest);
    }
  }

  lemma ParseSerializedPair(p: Pair)
    requires WellFormed(p.name) && WellFormed(p.value)
    ensures ParsePair(SerializePair(p)) == p
    ensures SerializePair(p) != [] && AMPERSAND !in SerializePair(p)
  {
    var n, v := FormText(p.name), FormText(p.value);
    FormBytesAvoid(Utf8(ToScalars(p.name).value));
    FormBytesAvoid(Utf8(ToScalars(p.value).value));
    IndexAfter(n, EQUALS, v);
    var s := SerializePair(p);
    assert s[..|n|] == n && s[|n| + 1..] == v;
    FormTextDecodes(p.name);
    FormTextDecodes(p.value);
  }

  lemma ParseStep(segment: seq<Byte>, rest: seq<Byte>)
    requires AMPERSAND !in segment
    ensures Parse(segment + [AMPERSAND] + rest)
         == (if segment == [] then [] else [ParsePair(segment)]) + Parse(rest)
    ensures Parse(segment) == if segment == [] then [] else [ParsePair(segment)]
  {
    hide ParsePair;
    var s := segment + [AMPERSAND] + rest;
    IndexAfter(segment, AMPERSAND, rest);
    assert s[..|segment|] == segment && s[|segment| + 1..] == rest;
    assert IndexOf(segment, AMPERSAND) == |segment| && segment[..|segment|] == segment;
  }

  /** An ampersand separates pairs, wherever it stands. */
  lemma {:induction false} ParseAppend(a: seq<Byte>, b: seq<Byte>)
    ensures Parse(a + ['&' as Byte] + b) == Parse(a) + Parse(b)
    decreases |a|
  {
    hide Parse, ParsePair;
    var i := IndexOf(a, AMPERSAND);
    if i == |a| {
      assert a[..i] == a;
      ParseStep(a, b);
    } else {
      var head, tail := a[..i], a[i + 1..];
      assert a == head + [AMPERSAND] + tail;
      assert a + [AMPERSAND] + b == head + [AMPERSAND] + (tail + [AMPERSAND] + b);
      ParseStep(head, tail);
      ParseStep(head, tail + [AMPERSAND] + b);
      ParseAppend(tail, b);
    }
  }

  lemma ParseOne(p: Pair)
    requires WellFormed(p.name) && WellFormed(p.value)
    ensures Parse(SerializePair(p)) == [p]
  {
    var s := SerializePair(p);
    ParseSerializedPair(p);
    assert IndexOf(s, AMPERSAND) == |s|;
    assert s[..|s|] == s;
  }

  /** The parser recovers every pair list from its serialization, repeated and
      empty names and values included. */
  lemma {:induction false} ParseRecoversPairs(pairs: seq<Pair>)
    requires WellFormedPairs(pairs)
    ensures Parse(Serialize(pairs)) == pairs
  {
    hide SerializePair, ParsePair, WellFormed;
    if pairs != [] {
      var n := |pairs| - 1;
      ParseOne(pairs[n]);
      assert pairs == pairs[..n] + [pairs[n]];
      if n > 0 {
        ParseRecoversPairs(pairs[..n]);
        ParseAppend(Serialize(pairs[..n]), SerializePair(pairs[n]));
      } else {
        SerializeOne(pairs);
      }
    }
  }

  lemma SerializeOne(pairs: seq<Pair>)
    requires WellFormedPairs(pairs) && |pairs| == 1
    ensures Serialize(pairs) == SerializePair(pairs[0])
  {
    hide SerializePair, WellFormed;
    assert [] + SerializePair(pairs[0]) == SerializePair(pairs[0]);
  }

  /** Whatever bytes it is given, the parser yields strings of scalar values. */
  lemma {:induction false} ParseIsWellFormed(bs: seq<Byte>)
    ensures WellFormedPairs(Parse(bs))
    decreases |bs|
  {
    hide Parse, ParsePair, WellFormed;
    var i := IndexOf(bs, AMPERSAND);
    ParsePairIsWellFormed(bs[..i]);
    if i < |bs| {
      assert bs == bs[..i] + [AMPERSAND] + bs[i + 1..];
      ParseStep(bs[..i], bs[i + 1..]);
      ParseIsWellFormed(bs[i + 1..]);
    } else {
      assert bs == bs[..i];
      ParseStep(bs, []);
    }
  }

  lemma ParsePairIsWellFormed(bs: seq<Byte>)
    ensures WellFormed(ParsePair(bs).name) && WellFormed(ParsePair(bs).value)
  {
    hide FormDecode, WellFormed;
    var j := IndexOf(bs, EQUALS);
    FormDecodeIsWellFormed(bs[..j]);
    FormDecodeIsWellFormed(if j < |bs| then bs[j + 1..] else []);
  }

  lemma FormDecodeIsWellFormed(bs: seq<Byte>)
    ensures WellFormed(FormDecode(bs))
  {
    ToScalarsOfFromScalars(Utf8Decode(PercentDecode(PlusToSpace(bs))));
  }
}
