/** JavaScript strings as sequences of UTF-16 code units, and UTF-8 as the
    WHATWG Encoding Standard encodes and decodes it. */
module Unicode {
  import opened Bytes
  import opened Options

  type CodeUnit = u: int | 0 <= u < 0x1_0000
  type Scalar = c: int | 0 <= c < 0xD800 || 0xE000 <= c < 0x11_0000
  type JsString = seq<CodeUnit>

  predicate IsLead(u: CodeUnit) {
    0xD800 <= u < 0xDC00
  }

  predicate IsTrail(u: CodeUnit) {
    0xDC00 <= u < 0xE000
  }

  /** The scalar values a string spells, or None when it holds a lone surrogate. */
  function ToScalars(s: JsString): Option<seq<Scalar>> {
    if s == [] then Some([])
    else if IsTrail(s[0]) then None
    else if IsLead(s[0]) then
      if |s| == 1 || !IsTrail(s[1]) then None
      else
        var rest :- ToScalars(s[2..]);
        Some([FromPair(s[0], s[1])] + rest)
    else
      var rest :- ToScalars(s[1..]);
      Some([s[0] as Scalar] + rest)
  }

  function FromPair(lead: CodeUnit, trail: CodeUnit): Scalar
    requires IsLead(lead) && IsTrail(trail)
  {
    0x1_0000 + (lead - 0xD800) * 0x400 + (trail - 0xDC00)
  }

  predicate WellFormed(s: JsString) {
    ToScalars(s).Some?
  }

  function Units(c: Scalar): JsString {
    if c < 0x1_0000 then [c]
    else [0xD800 + (c - 0x1_0000) / 0x400, 0xDC00 + (c - 0x1_0000) % 0x400]
  }

  function FromScalars(cs: seq<Scalar>): JsString {
    if cs == [] then [] else Units(cs[0]) + FromScalars(cs[1..])
  }

  lemma {:induction false} FromScalarsOfToScalars(s: JsString)
    requires WellFormed(s)
    ensures FromScalars(ToScalars(s).value) == s
  {
    if s == [] {
    } else if IsLead(s[0]) {
      FromScalarsOfToScalars(s[2..]);
      assert Units(FromPair(s[0], s[1])) == [s[0], s[1]];
      assert ToScalars(s).value[1..] == ToScalars(s[2..]).value;
      assert s == [s[0], s[1]] + s[2..];
    } else {
      FromScalarsOfToScalars(s[1..]);
      assert ToScalars(s).value[1..] == ToScalars(s[1..]).value;
      assert s == [s[0]] + s[1..];
    }
  }

  lemma {:induction false} ToScalarsOfFromScalars(cs: seq<Scalar>)
    ensures ToScalars(FromScalars(cs)) == Some(cs)
  {
    if cs != [] {
      var s, u := FromScalars(cs), Units(cs[0]);
      ToScalarsOfFromScalars(cs[1..]);
      assert s[|u|..] == FromScalars(cs[1..]);
      assert s[..|u|] == u;
      assert cs == [cs[0]] + cs[1..];
    }
  }

  /* UTF-8 */

  function Utf8Scalar(c: Scalar): seq<Byte> {
    if c < 0x80 then [c]
    else if c < 0x800 then [0xC0 + c / 0x40, 0x80 + c % 0x40]
    else if c < 0x1_0000 then [0xE0 + c / 0x1000, 0x80 + c / 0x40 % 0x40, 0x80 + c % 0x40]
    else [0xF0 + c / 0x4_0000, 0x80 + c / 0x1000 % 0x40, 0x80 + c / 0x40 % 0x40, 0x80 + c % 0x40]
  }

  function Utf8(cs: seq<Scalar>): seq<Byte> {
    if cs == [] then [] else Utf8Scalar(cs[0]) + Utf8(cs[1..])
  }

  /** How many continuation bytes a lead byte asks for; None for a byte that
      cannot start a sequence. */
  function BytesNeeded(b: Byte): Option<nat> {
    if b < 0x80 then Some(0)
    else if 0xC2 <= b < 0xE0 then Some(1)
    else if 0xE0 <= b < 0xF0 then Some(2)
    else if 0xF0 <= b < 0xF5 then Some(3)
    else None
  }

  function LowerBoundary(lead: Byte): Byte {
    if lead == 0xE0 then 0xA0 else if lead == 0xF0 then 0x90 else 0x80
  }

  function UpperBoundary(lead: Byte): Byte {
    if lead == 0xED then 0x9F else if lead == 0xF4 then 0x8F else 0xBF
  }

  /** How many of the first n bytes are acceptable continuations. */
  function Continuations(bs: seq<Byte>, n: nat, lower: Byte, upper: Byte): (k: nat)
    ensures k <= n && k <= |bs|
    ensures forall i :: 1 <= i < k ==> 0x80 <= bs[i] < 0xC0
    ensures k > 0 ==> lower <= bs[0] <= upper
  {
    if n == 0 || bs == [] || !(lower <= bs[0] <= upper) then 0
    else 1 + Continuations(bs[1..], n - 1, 0x80, 0xBF)
  }

  function Assemble(bs: seq<Byte>): int
    requires 1 <= |bs| <= 4
  {
    match |bs|
    case 1 => bs[0]
    case 2 => (bs[0] as int - 0xC0) * 0x40 + (bs[1] as int - 0x80)
    case 3 => (bs[0] as int - 0xE0) * 0x1000 + (bs[1] as int - 0x80) * 0x40 + (bs[2] as int - 0x80)
    case _ => (bs[0] as int - 0xF0) * 0x4_0000 + (bs[1] as int - 0x80) * 0x1000
              + (bs[2] as int - 0x80) * 0x40 + (bs[3] as int - 0x80)
  }

  const REPLACEMENT: Scalar := 0xFFFD

  /** "UTF-8 decode without BOM": an ill-formed sequence yields U+FFFD and
      decoding resumes at the first byte that did not continue it. */
  function Utf8Decode(bs: seq<Byte>): seq<Scalar>
    decreases |bs|
  {
    if bs == [] then []
    else match BytesNeeded(bs[0])
      case None => [REPLACEMENT] + Utf8Decode(bs[1..])
      case Some(n) =>
        var k := Continuations(bs[1..], n, LowerBoundary(bs[0]), UpperBoundary(bs[0]));
        if k < n then [REPLACEMENT] + Utf8Decode(bs[1 + k..])
        else
          assert forall i :: 1 <= i < n ==> bs[1..][i] == bs[1 + i];
          [Assemble(bs[..1 + n]) as Scalar] + Utf8Decode(bs[1 + n..])
  }

  /** What the encoder writes: the right number of bytes, a first continuation
      inside the lead's boundaries, and the scalar back when reassembled. */
  lemma Utf8ScalarShape(c: Scalar)
    ensures var e := Utf8Scalar(c);
      && BytesNeeded(e[0]) == Some(|e| - 1)
      && (|e| > 1 ==> LowerBoundary(e[0]) <= e[1] <= UpperBoundary(e[0]))
      && (forall i :: 2 <= i < |e| ==> 0x80 <= e[i] < 0xC0)
      && Assemble(e) == c
  {
    var q1, q2, q3 := c / 0x40, c / 0x1000, c / 0x4_0000;
    SixBits(c);
    SixBits(q1);
    SixBits(q2);
    if 0x800 <= c < 0x1_0000 {
      assert q2 == q1 / 0x40;
      assert q2 == 0 ==> q1 % 0x40 >= 0x20;
      assert q2 == 0xD ==> q1 % 0x40 < 0x20;
      assert Utf8Scalar(c) == [0xE0 + q2, 0x80 + q1 % 0x40, 0x80 + c % 0x40];
    } else if 0x1_0000 <= c {
      assert q2 == q1 / 0x40 && q3 == q2 / 0x40;
      assert q3 == 0 ==> q2 % 0x40 >= 0x10;
      assert q3 == 4 ==> q2 % 0x40 < 0x10;
      assert Utf8Scalar(c) == [0xF0 + q3, 0x80 + q2 % 0x40, 0x80 + q1 % 0x40, 0x80 + c % 0x40];
    }
  }

  lemma SixBits(n: nat)
    ensures n == n / 0x40 * 0x40 + n % 0x40 && 0 <= n % 0x40 < 0x40
  {
  }

  lemma {:induction false} AllContinue(bs: seq<Byte>, n: nat, lower: Byte, upper: Byte)
    requires n <= |bs|
    requires n > 0 ==> lower <= bs[0] <= upper
    requires forall i :: 1 <= i < n ==> 0x80 <= bs[i] < 0xC0
    ensures Continuations(bs, n, lower, upper) == n
  {
    if n > 0 {
      AllContinue(bs[1..], n - 1, 0x80, 0xBF);
    }
  }

  lemma DecodeScalar(c: Scalar, rest: seq<Byte>)
    ensures Utf8Decode(Utf8Scalar(c) + rest) == [c] + Utf8Decode(rest)
  {
    Utf8ScalarShape(c);
    var e := Utf8Scalar(c);
    var bs := e + rest;
    var n := |e| - 1;
    var t := bs[1..];
    assert forall i :: 0 <= i < n ==> t[i] == e[1 + i];
    AllContinue(t, n, LowerBoundary(e[0]), UpperBoundary(e[0]));
    assert bs[..1 + n] == e && bs[1 + n..] == rest;
  }

  lemma {:induction false} DecodeUtf8(cs: seq<Scalar>)
    ensures Utf8Decode(Utf8(cs)) == cs
  {
    if cs != [] {
      DecodeScalar(cs[0], Utf8(cs[1..]));
      DecodeUtf8(cs[1..]);
    }
  }

  /* Ill-formed bytes. */

  lemma SplitSix(high: int, low: int)
    requires 0 <= low < 0x40
    ensures (high * 0x40 + low) / 0x40 == high && (high * 0x40 + low) % 0x40 == low
  {
  }

  lemma ThreeSixes(a: nat, b: nat, c: nat)
    requires b < 0x40 && c < 0x40
    ensures var v := a * 0x1000 + b * 0x40 + c;
      v / 0x1000 == a && v / 0x40 % 0x40 == b && v % 0x40 == c
  {
    var v, high := a * 0x1000 + b * 0x40 + c, a * 0x40 + b;
    SplitSix(high, c);
    SplitSix(a, b);
    assert v == high * 0x40 + c && v / 0x1000 == v / 0x40 / 0x40;
  }

  lemma FourSixes(a: nat, b: nat, c: nat, d: nat)
    requires b < 0x40 && c < 0x40 && d < 0x40
    ensures var v := a * 0x4_0000 + b * 0x1000 + c * 0x40 + d;
      v / 0x4_0000 == a && v / 0x1000 % 0x40 == b && v / 0x40 % 0x40 == c && v % 0x40 == d
  {
    var v, high := a * 0x4_0000 + b * 0x1000 + c * 0x40 + d, a * 0x1000 + b * 0x40 + c;
    SplitSix(high, d);
    ThreeSixes(a, b, c);
    assert v == high * 0x40 + d;
    assert v / 0x4_0000 == v / 0x40 / 0x1000 && v / 0x1000 == v / 0x40 / 0x40;
  }

  /** A byte sequence of the shape that the decoder accepts is the encoding of what it
      assembles. */
  lemma AssembledEncodes(e: seq<Byte>)
    requires e != [] && BytesNeeded(e[0]) == Some(|e| - 1)
    requires |e| > 1 ==> LowerBoundary(e[0]) <= e[1] <= UpperBoundary(e[0])
    requires forall i :: 1 <= i < |e| ==> 0x80 <= e[i] < 0xC0
    ensures 0 <= Assemble(e) < 0xD800 || 0xE000 <= Assemble(e) < 0x11_0000
    ensures Utf8Scalar(Assemble(e)) == e
  {
    if |e| == 2 {
      SplitSix(e[0] as int - 0xC0, e[1] as int - 0x80);
    } else if |e| == 3 {
      ThreeSixes(e[0] as int - 0xE0, e[1] as int - 0x80, e[2] as int - 0x80);
    } else if |e| == 4 {
      FourSixes(e[0] as int - 0xF0, e[1] as int - 0x80, e[2] as int - 0x80, e[3] as int - 0x80);
    }
  }

  /** A decoding that does not begin with a replacement character begins with an encoding. */
  lemma FirstCharacter(bs: seq<Byte>) returns (n: nat)
    requires bs != [] && Utf8Decode(bs)[0] != REPLACEMENT
    ensures n < |bs| && Utf8Scalar(Utf8Decode(bs)[0]) == bs[..1 + n]
    ensures Utf8Decode(bs)[1..] == Utf8Decode(bs[1 + n..])
  {
    hide Assemble, Utf8Scalar;
    n := BytesNeeded(bs[0]).value;
    assert forall i :: 1 <= i < n ==> bs[1..][i] == bs[1 + i];
    AssembledEncodes(bs[..1 + n]);
  }

  /** Without a replacement character in the result the bytes are the encoding of the result:
      overlong forms, surrogates and stray or missing continuations all leave one. */
  lemma {:induction false} AcceptsOnlyEncodings(bs: seq<Byte>)
    requires 0xFFFD !in Utf8Decode(bs)
    ensures Utf8(Utf8Decode(bs)) == bs
    decreases |bs|
  {
    if bs != [] {
      DecodesSomething(bs);
      hide Utf8Decode, Utf8Scalar;
      var n := FirstCharacter(bs);
      assert Utf8Decode(bs) == [Utf8Decode(bs)[0]] + Utf8Decode(bs[1 + n..]);
      AcceptsOnlyEncodings(bs[1 + n..]);
      assert bs == bs[..1 + n] + bs[1 + n..];
    }
  }

  lemma DecodesSomething(bs: seq<Byte>)
    ensures Utf8Decode(bs) == [] <==> bs == []
  {
  }

  /** A character cut short leaves one replacement character, and decoding resumes at the
      byte that did not continue it. */
  lemma TruncatedIsReplacedOnce(c: Scalar, k: nat, rest: seq<Byte>)
    requires 0 < k < |Utf8Scalar(c)| && (rest == [] || !(0x80 <= rest[0] < 0xC0))
    ensures Utf8Decode(Utf8Scalar(c)[..k] + rest) == [0xFFFD] + Utf8Decode(rest)
  {
    hide Assemble;
    Utf8ScalarShape(c);
    var e := Utf8Scalar(c);
    hide Utf8Scalar;
    var bs := e[..k] + rest;
    assert bs[0] == e[0];
    assert forall i :: 0 <= i < k - 1 ==> bs[1..][i] == e[1 + i];
    StopsShort(bs[1..], |e| - 1, k - 1, LowerBoundary(e[0]), UpperBoundary(e[0]));
    assert bs[k..] == rest;
  }

  lemma {:induction false} StopsShort(bs: seq<Byte>, n: nat, k: nat, lower: Byte, upper: Byte)
    requires k < n && k <= |bs| && 0x80 <= lower && upper < 0xC0
    requires k > 0 ==> lower <= bs[0] <= upper
    requires forall i :: 1 <= i < k ==> 0x80 <= bs[i] < 0xC0
    requires k < |bs| ==> !(0x80 <= bs[k] < 0xC0)
    ensures Continuations(bs, n, lower, upper) == k
  {
    if k > 0 {
      StopsShort(bs[1..], n - 1, k - 1, 0x80, 0xBF);
    }
  }

  /** A byte that starts no character is replaced by itself. */
  lemma StrayByteIsReplaced(b: Byte, rest: seq<Byte>)
    requires 0x80 <= b < 0xC2 || 0xF5 <= b
    ensures Utf8Decode([b] + rest) == [0xFFFD] + Utf8Decode(rest)
  {
    assert ([b] + rest)[1..] == rest;
  }
}
