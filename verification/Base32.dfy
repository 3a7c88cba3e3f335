/** The Base32 decoder of the two-factor journeys, whose accumulator is never masked
    and wraps at 32 bits, against the encoding of section 6 of RFC 4648. */
module Base32 {
  import opened Bytes
  import opened Options
  import Text
  import opened Words

  type Digit = d: int | 0 <= d < 32

  /* Positional numbers. */

  /** The big-endian number a digit string spells. */
  function Number(digits: seq<nat>, base: nat): nat {
    if digits == [] then 0
    else
      var n := |digits| - 1;
      Number(digits[..n], base) * base + digits[n]
  }

  lemma NumberSnoc(digits: seq<nat>, d: nat, base: nat)
    ensures Number(digits + [d], base) == Number(digits, base) * base + d
  {
    assert (digits + [d])[..|digits|] == digits;
  }

  /** Equally long byte strings that spell one number are equal. */
  lemma {:induction false} NumberIdentifies(a: seq<Byte>, b: seq<Byte>)
    requires |a| == |b| && Number(a, 256) == Number(b, 256)
    ensures a == b
  {
    if a != [] {
      var n := |a| - 1;
      assert Number(a[..n], 256) == Number(b[..n], 256) && a[n] == b[n];
      NumberIdentifies(a[..n], b[..n]);
      assert a == a[..n] + [a[n]] && b == b[..n] + [b[n]];
    }
  }

  /* The RFC's encoding. */

  /** The n low base-32 digits of a number, most significant first. */
  function Digits(v: nat, n: nat): seq<Digit> {
    if n == 0 then [] else Digits(v / 32, n - 1) + [v % 32]
  }

  /** How many digits a final group of 1 to 4 bytes takes, and how many zero bits are
      added on its right. */
  function TailDigits(bytes: nat): nat
    requires bytes < 5
  {
    [0, 2, 4, 5, 7][bytes]
  }

  function TailShift(bytes: nat): nat
    requires bytes < 5
  {
    [1, 4, 16, 2, 8][bytes]
  }

  /** The zero bits on the right of a final group. */
  function Extra(t: nat): nat
    requires t < 5
  {
    [0, 2, 4, 1, 3][t]
  }

  /** The number of a final group, moved left over its zero bits. */
  function Padded(v: nat, t: nat): nat
    requires t < 5
  {
    v * TailShift(t)
  }

  function WholeBlocks(bytes: seq<Byte>): seq<Digit>
    requires |bytes| % 5 == 0
  {
    if bytes == [] then []
    else
      var n := |bytes| - 5;
      WholeBlocks(bytes[..n]) + Digits(Number(bytes[n..], 256), 8)
  }

  function EncodeParts(blocks: seq<Byte>, tail: seq<Byte>): seq<Digit>
    requires |blocks| % 5 == 0 && |tail| < 5
  {
    WholeBlocks(blocks) + Digits(Padded(Number(tail, 256), |tail|), TailDigits(|tail|))
  }

  function EncodeDigits(bytes: seq<Byte>): seq<Digit> {
    var n := 5 * (|bytes| / 5);
    EncodeParts(bytes[..n], bytes[n..])
  }

  function Letter(d: Digit): char {
    if d < 26 then 'A' + d as char else '2' + (d - 26) as char
  }

  function Spell(digits: seq<Digit>): string {
    if digits == [] then "" else [Letter(digits[0])] + Spell(digits[1..])
  }

  function Padding(n: nat): string {
    if n == 0 then "" else "=" + Padding(n - 1)
  }

  /** The padded text of RFC 4648. */
  function Encode(bytes: seq<Byte>): string {
    var d := EncodeDigits(bytes);
    Spell(d) + Padding((8 - |d| % 8) % 8)
  }

  /* What the digits spell. */

  function Power32(n: nat): nat {
    if n == 0 then 1 else 32 * Power32(n - 1)
  }

  lemma {:induction false} DigitsSpell(v: nat, n: nat)
    requires v < Power32(n)
    ensures |Digits(v, n)| == n && Number(Digits(v, n), 32) == v
  {
    if n > 0 {
      DigitsSpell(v / 32, n - 1);
      NumberSnoc(Digits(v / 32, n - 1), v % 32, 32);
    }
  }

  /** Appending n digits scales the number by 32 to the n. */
  lemma {:induction false} AppendDigits(a: seq<Digit>, v: nat, n: nat)
    requires v < Power32(n)
    ensures Number(a + Digits(v, n), 32) == Number(a, 32) * Power32(n) + v
    ensures |Digits(v, n)| == n
  {
    if n == 0 {
      assert a + Digits(v, n) == a;
    } else {
      AppendDigits(a, v / 32, n - 1);
      var front := a + Digits(v / 32, n - 1);
      assert a + Digits(v, n) == front + [v % 32];
      NumberSnoc(front, v % 32, 32);
      ScaleOnce(Number(a, 32), Power32(n - 1), v);
    }
  }

  lemma ScaleOnce(a: nat, p: nat, v: nat)
    ensures (a * p + v / 32) * 32 + v % 32 == a * (32 * p) + v
  {
    assert a * (32 * p) == 32 * (a * p);
  }

  function Power256(n: nat): nat {
    if n == 0 then 1 else 256 * Power256(n - 1)
  }

  lemma {:induction false} AppendBytes(a: seq<Byte>, b: seq<Byte>)
    ensures Number(a + b, 256) == Number(a, 256) * Power256(|b|) + Number(b, 256)
    ensures Number(b, 256) < Power256(|b|)
  {
    if b == [] {
      assert a + b == a;
    } else {
      var n := |b| - 1;
      AppendBytes(a, b[..n]);
      assert b == b[..n] + [b[n]];
      assert a + b == (a + b[..n]) + [b[n]];
      NumberSnoc(a + b[..n], b[n], 256);
      ScaleByte(Number(a, 256), Power256(n), Number(b[..n], 256), b[n]);
    }
  }

  lemma ScaleByte(a: nat, p: nat, v: nat, d: Byte)
    requires v < p
    ensures (a * p + v) * 256 + d == a * (256 * p) + (v * 256 + d)
    ensures v * 256 + d < 256 * p
  {
    assert a * (256 * p) == 256 * (a * p);
  }

  lemma Powers()
    ensures Power32(0) == 1 && Power32(2) == 1024 && Power32(4) == 0x10_0000
    ensures Power32(5) == 0x200_0000 && Power32(7) == 0x8_0000_0000 && Power32(8) == 0x100_0000_0000
    ensures Power256(0) == 1 && Power256(1) == 256 && Power256(2) == 0x1_0000
    ensures Power256(3) == 0x100_0000 && Power256(4) == 0x1_0000_0000 && Power256(5) == 0x100_0000_0000
  {
    assert Power32(2) == 32 * Power32(1) && Power32(3) == 32 * Power32(2) && Power32(4) == 32 * Power32(3);
    assert Power32(5) == 32 * Power32(4) && Power32(6) == 32 * Power32(5) && Power32(7) == 32 * Power32(6);
    assert Power256(2) == 256 * Power256(1) && Power256(3) == 256 * Power256(2);
    assert Power256(4) == 256 * Power256(3) && Power256(5) == 256 * Power256(4);
  }

  lemma {:induction false} WholeBlocksSpell(bytes: seq<Byte>)
    requires |bytes| % 5 == 0
    ensures 5 * |WholeBlocks(bytes)| == 8 * |bytes|
    ensures Number(WholeBlocks(bytes), 32) == Number(bytes, 256)
  {
    if bytes != [] {
      var n := |bytes| - 5;
      WholeBlocksSpell(bytes[..n]);
      Powers();
      AppendBytes(bytes[..n], bytes[n..]);
      AppendDigits(WholeBlocks(bytes[..n]), Number(bytes[n..], 256), 8);
      assert bytes == bytes[..n] + bytes[n..];
    }
  }

  lemma TailLength(t: nat)
    requires t < 5
    ensures 5 * TailDigits(t) == 8 * t + Extra(t)
  {
  }

  lemma TailFits(t: nat, v: nat)
    requires t < 5 && v < Power256(t)
    ensures v * TailShift(t) < Power32(TailDigits(t))
    ensures Power32(TailDigits(t)) == Power256(t) * TailShift(t)
  {
    Powers();
  }

  lemma ScaleTail(a: nat, p: nat, v: nat, shift: nat)
    ensures a * (p * shift) + v * shift == (a * p + v) * shift
  {
    assert a * (p * shift) == (a * p) * shift;
  }

  lemma EncodedParts(head: seq<Byte>, tail: seq<Byte>)
    requires |head| % 5 == 0 && |tail| < 5
    ensures var t := |tail|;
      var d := EncodeParts(head, tail);
      && 5 * |d| == 8 * (|head| + t) + Extra(t)
      && Number(d, 32) == Padded(Number(head + tail, 256), t)
  {
    hide Number, Power32, Power256, WholeBlocks, Digits, TailDigits, TailShift;
    var t := |tail|;
    var v, shift := Number(tail, 256), TailShift(t);
    WholeBlocksSpell(head);
    AppendBytes(head, tail);
    TailFits(t, v);
    TailLength(t);
    AppendDigits(WholeBlocks(head), v * shift, TailDigits(t));
    ScaleTail(Number(head, 256), Power256(t), v, shift);
  }

  /** The digits are the bytes' bits, followed by fewer than five zero bits. */
  lemma EncodeDigitsSpell(bytes: seq<Byte>)
    ensures var t := |bytes| % 5;
      var d := EncodeDigits(bytes);
      && 5 * |d| == 8 * |bytes| + Extra(t)
      && Number(d, 32) == Padded(Number(bytes, 256), t)
  {
    hide Number, EncodeParts, Padded, Extra;
    var n := 5 * (|bytes| / 5);
    EncodedParts(bytes[..n], bytes[n..]);
    assert bytes == bytes[..n] + bytes[n..];
  }

  /* The decoder. */

  /** Upper case as far as the alphabet can tell: besides the ASCII letters, these are the
      characters whose upper case (Unicode's special casing included) contains a letter of
      A to Z. All others become characters that the decoder skips as it does them. */
  function UpperChar(c: char): string {
    if 'a' <= c <= 'z' then [c - 32 as char]
    else match c
      case '\U{DF}' => "SS"
      case '\U{131}' => "I"
      case '\U{149}' => "\U{2BC}N"
      case '\U{17F}' => "S"
      case '\U{1F0}' => "J\U{30C}"
      case '\U{1E96}' => "H\U{331}"
      case '\U{1E97}' => "T\U{308}"
      case '\U{1E98}' => "W\U{30A}"
      case '\U{1E99}' => "Y\U{30A}"
      case '\U{1E9A}' => "A\U{2BE}"
      case '\U{FB00}' => "FF"
      case '\U{FB01}' => "FI"
      case '\U{FB02}' => "FL"
      case '\U{FB03}' => "FFI"
      case '\U{FB04}' => "FFL"
      case '\U{FB05}' => "ST"
      case '\U{FB06}' => "ST"
      case _ => [c]
  }

  function Upper(s: string): string {
    if s == "" then "" else UpperChar(s[0]) + Upper(s[1..])
  }

  /** replace(/=+$/, "") */
  function StripPadding(s: string): string {
    if s != "" && s[|s| - 1] == '=' then StripPadding(s[..|s| - 1]) else s
  }

  function IndexOf(c: char): Option<Digit> {
    if 'A' <= c <= 'Z' then Some((c - 'A') as int)
    else if '2' <= c <= '7' then Some((c - '2') as int + 26)
    else None
  }

  /** The alphabet's characters of a text; the decoder skips all others. */
  function Indices(s: string): seq<Digit> {
    if s == "" then []
    else
      var n := |s| - 1;
      Indices(s[..n]) + if IndexOf(s[n]).Some? then [IndexOf(s[n]).value] else []
  }

  /** 2 to the k, for the bit counts the loop reaches. */
  function Bit(k: nat): (p: nat)
    requires k <= 12
    ensures p >= 1
  {
    [1, 2, 4, 8, 16, 32, 64, 128, 256, 512, 1024, 2048, 4096][k]
  }

  const WRAP := WORD

  /** One digit in: the wrap changes nothing below the bits in hand, and the bytes
      already out are unchanged at the top. */
  lemma PushDigit(value: nat, all: nat, digit: Digit, bits: nat)
    requires bits < 8 && value < WRAP && value % Bit(bits) == all % Bit(bits)
    ensures ((value * 32 + digit) % WRAP) % Bit(bits + 5) == (all * 32 + digit) % Bit(bits + 5)
    ensures (all * 32 + digit) / Bit(bits + 5) == all / Bit(bits)
  {
    hide Bit;
    SplitPush(value, digit, bits);
    SplitPush(all, digit, bits);
    WrapBelow(value * 32 + digit, bits + 5);
  }

  lemma BitIsPower(k: nat)
    requires k <= 4
    ensures Bit(k) == Power2(k)
  {
    if k >= 2 {
      assert Power2(2) == 4;
    }
  }

  lemma BitScales(bits: nat)
    ensures bits < 8 ==> Bit(bits + 5) == 32 * Bit(bits)
    ensures 8 <= bits <= 12 ==> Bit(bits) == 256 * Bit(bits - 8)
    ensures bits <= 12 ==> Bit(bits) >= 1 && Bit(bits) * (WRAP / Bit(bits)) == WRAP
  {
  }

  lemma SplitPush(v: nat, digit: Digit, bits: nat)
    requires bits < 8
    ensures (v * 32 + digit) % Bit(bits + 5) == (v % Bit(bits)) * 32 + digit
    ensures (v * 32 + digit) / Bit(bits + 5) == v / Bit(bits)
  {
    hide Bit;
    BitScales(bits);
    var p := Bit(bits);
    var q, r := v / p, v % p;
    assert v == p * q + r;
    assert (p * q) * 32 == (32 * p) * q;
    DivisionIsUnique(v * 32 + digit, 32 * p, q, r * 32 + digit);
  }

  lemma WrapBelow(v: nat, bits: nat)
    requires 5 <= bits <= 12
    ensures (v % WRAP) % Bit(bits) == v % Bit(bits)
  {
    hide Bit;
    var p := Bit(bits);
    BitScales(bits);
    var k, w, q, r := WRAP / p, v / WRAP, v / p, v % p;
    assert v % WRAP == v - WRAP * w;
    assert WRAP * w == p * (k * w);
    assert p * (q - k * w) == p * q - p * (k * w);
    DivisionIsUnique(v % WRAP, p, q - k * w, r);
  }

  lemma SplitPopAt(v: nat, p: nat, q: nat, r: nat)
    requires p >= 1 && r < 256 * p && v == p * (256 * q) + r
    ensures v / p == 256 * q + r / p && r / p <= 255
    ensures v % p == r % p
  {
    var c, d := r / p, r % p;
    assert r == p * c + d;
    if c > 255 {
      Gap(p, 255, c);
    }
    assert p * (256 * q) + p * c == p * (256 * q + c);
    DivisionIsUnique(v, p, 256 * q + c, d);
  }

  lemma LowByte(q: nat, c: nat)
    requires c <= 255
    ensures (256 * q + c) % 256 == c
  {
  }

  /** One byte out: it is the next byte of the number, and the rest stays in hand. */
  lemma PopByte(value: nat, all: nat, bits: nat)
    requires 8 <= bits <= 12 && value % Bit(bits) == all % Bit(bits)
    ensures all / Bit(bits - 8) == (all / Bit(bits)) * 256 + (value / Bit(bits - 8)) % 256
    ensures value % Bit(bits - 8) == all % Bit(bits - 8)
  {
    if bits == 8 {
      PopByteAt(value, all, 1, value / 256, all / 256, value % 256);
    } else if bits == 9 {
      PopByteAt(value, all, 2, value / 512, all / 512, value % 512);
    } else if bits == 10 {
      PopByteAt(value, all, 4, value / 1024, all / 1024, value % 1024);
    } else if bits == 11 {
      PopByteAt(value, all, 8, value / 2048, all / 2048, value % 2048);
    } else {
      PopByteAt(value, all, 16, value / 4096, all / 4096, value % 4096);
    }
  }

  lemma PopByteAt(value: nat, all: nat, p: nat, q1: nat, q2: nat, r: nat)
    requires p >= 1 && r < 256 * p && value == p * (256 * q1) + r && all == p * (256 * q2) + r
    ensures all / p == q2 * 256 + (value / p) % 256
    ensures value % p == all % p
  {
    SplitPopAt(value, p, q1, r);
    SplitPopAt(all, p, q2, r);
    LowByte(q1, r / p);
  }

  /** The text holds the digits of an encoding, in any letter case, with or without
      padding, whatever characters outside the alphabet stand between them. */
  predicate Carries(text: string, bytes: seq<Byte>) {
    Indices(Upper(text)) == EncodeDigits(bytes)
  }

  method Base32Decode(input: string) returns (output: seq<Byte>)
    ensures var digits := Indices(Upper(input));
      && |output| == 5 * |digits| / 8
      && Number(output, 256) == Number(digits, 32) / Bit(5 * |digits| % 8)
    ensures forall bytes :: Carries(input, bytes) ==> output == bytes
  {
    hide Bit, EncodeDigits, Or, And, Power2, Upper;
    var clean := StripPadding(Upper(input));
    var bits: nat, value: nat := 0, 0;
    output := [];
    ghost var digits: seq<Digit> := [];
    for i := 0 to |clean|
      invariant digits == Indices(clean[..i])
      invariant bits < 8 && 5 * |digits| == 8 * |output| + bits && value < WRAP
      invariant value % Bit(bits) == Number(digits, 32) % Bit(bits)
      invariant Number(output, 256) == Number(digits, 32) / Bit(bits)
    {
      assert clean[..i + 1][..i] == clean[..i];
      var idx := IndexOf(clean[i]);
      if idx.None? {
        continue;
      }
      PushDigit(value, Number(digits, 32), idx.value, bits);
      NumberSnoc(digits, idx.value, 32);
      digits := digits + [idx.value];
      PushDigitWord(value, idx.value);
      value := Or(ShiftLeft(value, 5), idx.value);
      bits := bits + 5;
      if bits >= 8 {
        PopByte(value, Number(digits, 32), bits);
        BitIsPower(bits - 8);
        AndMask(ShiftRight(value, bits - 8), 8);
        Powers2();
        NumberSnoc(output, And(ShiftRight(value, bits - 8), 0xFF), 256);
        output := output + [And(ShiftRight(value, bits - 8), 0xFF)];
        bits := bits - 8;
      }
    }
    assert clean[..|clean|] == clean;
    PaddingIsSkipped(Upper(input));
    forall bytes | Carries(input, bytes)
      ensures output == bytes
    {
      DigitsDetermineBytes(bytes, output);
    }
  }

  /** The decoder's result for the digits of an encoding is the encoded bytes. */
  lemma DigitsDetermineBytes(bytes: seq<Byte>, output: seq<Byte>)
    requires |output| == 5 * |EncodeDigits(bytes)| / 8
    requires Number(output, 256) == Number(EncodeDigits(bytes), 32) / Bit(5 * |EncodeDigits(bytes)| % 8)
    ensures output == bytes
  {
    hide EncodeDigits, Number;
    EncodeDigitsSpell(bytes);
    var t, d, v := |bytes| % 5, EncodeDigits(bytes), Number(bytes, 256);
    var extra := Extra(t);
    assert 5 * |d| / 8 == |bytes| && 5 * |d| % 8 == extra;
    assert Bit(extra) == TailShift(t);
    DivisionIsUnique(v * TailShift(t), TailShift(t), v, 0);
    NumberIdentifies(output, bytes);
  }

  lemma {:induction false} PaddingIsSkipped(s: string)
    ensures Indices(StripPadding(s)) == Indices(s)
  {
    if s != "" && s[|s| - 1] == '=' {
      PaddingIsSkipped(s[..|s| - 1]);
    }
  }

  /* The RFC's own text carries its bytes. */

  lemma {:induction false} IndicesConcat(a: string, b: string)
    ensures Indices(a + b) == Indices(a) + Indices(b)
  {
    if b == "" {
      assert a + b == a;
    } else {
      var n := |b| - 1;
      assert (a + b)[..|a| + n] == a + b[..n];
      IndicesConcat(a, b[..n]);
    }
  }

  lemma IndicesOne(c: char)
    ensures Indices([c]) == if IndexOf(c).Some? then [IndexOf(c).value] else []
  {
    assert [c][..0] == "";
  }

  lemma {:induction false} UpperConcat(a: string, b: string)
    ensures Upper(a + b) == Upper(a) + Upper(b)
  {
    if a == "" {
      assert a + b == b;
    } else {
      assert (a + b)[1..] == a[1..] + b;
      UpperConcat(a[1..], b);
    }
  }

  lemma LetterStays(d: Digit)
    ensures Upper([Letter(d)]) == [Letter(d)] && Indices([Letter(d)]) == [d]
  {
    var c := Letter(d);
    assert UpperChar(c) == [c];
    assert [c][1..] == "";
    IndicesOne(c);
  }

  lemma {:induction false} SpelledIndices(digits: seq<Digit>)
    ensures Indices(Upper(Spell(digits))) == digits
  {
    if digits == [] {
      assert Indices(Upper("")) == [];
    } else {
      var c, rest := [Letter(digits[0])], Spell(digits[1..]);
      assert Spell(digits) == c + rest;
      hide Upper, Indices, Letter;
      LetterStays(digits[0]);
      UpperConcat(c, rest);
      IndicesConcat(c, Upper(rest));
      SpelledIndices(digits[1..]);
      assert digits == [digits[0]] + digits[1..];
    }
  }

  lemma UpperPad()
    ensures Upper("=") == "=" && Indices(Upper(Padding(0))) == []
  {
    assert "="[1..] == "";
  }

  lemma {:induction false} PaddingHasNoIndices(n: nat)
    ensures Indices(Upper(Padding(n))) == []
  {
    if n > 0 {
      UpperConcat("=", Padding(n - 1));
      UpperPad();
      hide Upper, Indices;
      IndicesConcat("=", Upper(Padding(n - 1)));
      IndicesOne('=');
      PaddingHasNoIndices(n - 1);
    }
  }

  predicate InAlphabet(c: char) {
    'A' <= c <= 'Z' || '2' <= c <= '7' || c == '='
  }

  predicate Alphabetic(s: string) {
    forall i :: 0 <= i < |s| ==> InAlphabet(s[i])
  }

  lemma UpperOfLetter(c: char, letter: char)
    requires InAlphabet(letter) && Text.SameLetter(c, letter)
    ensures UpperChar(c) == [letter]
  {
  }

  /** In any letter case the alphabet's characters have one upper case. */
  lemma {:induction false} UpperOfSameText(text: string, s: string)
    requires Alphabetic(s) && Text.SameButCase(text, s)
    ensures Upper(text) == s
  {
    hide UpperChar, InAlphabet, Text.SameLetter;
    if s != "" {
      UpperOfLetter(text[0], s[0]);
      UpperOfSameText(text[1..], s[1..]);
    }
  }

  lemma {:induction false} SpelledIsAlphabetic(digits: seq<Digit>, n: nat)
    ensures Alphabetic(Spell(digits)) && Alphabetic(Padding(n))
  {
    if digits != [] {
      SpelledIsAlphabetic(digits[1..], n);
    } else if n > 0 {
      SpelledIsAlphabetic(digits, n - 1);
    }
  }

  lemma {:induction false} SpelledLength(digits: seq<Digit>, n: nat)
    ensures |Spell(digits)| == |digits| && |Padding(n)| == n
  {
    if digits != [] {
      SpelledLength(digits[1..], n);
    } else if n > 0 {
      SpelledLength(digits, n - 1);
    }
  }

  /** The padded text has eight characters for every five bytes or part of five. */
  lemma EncodedLength(bytes: seq<Byte>)
    ensures |Encode(bytes)| == 8 * ((|bytes| + 4) / 5)
  {
    hide EncodeDigits, Spell, Padding;
    var d := EncodeDigits(bytes);
    EncodeDigitsSpell(bytes);
    SpelledLength(d, (8 - |d| % 8) % 8);
  }

  lemma SameTextIsItself(s: string)
    ensures Text.SameButCase(s, s)
  {
  }

  /** The RFC's text carries its bytes in any letter case, with and without its padding. */
  lemma EncodedTextCarries(bytes: seq<Byte>, text: string)
    requires Text.SameButCase(text, Encode(bytes)) || Text.SameButCase(text, Spell(EncodeDigits(bytes)))
    ensures Carries(text, bytes)
  {
    hide EncodeDigits, Upper, Indices, Spell, Padding, Text.SameButCase;
    var d := EncodeDigits(bytes);
    var p := (8 - |d| % 8) % 8;
    SpelledIsAlphabetic(d, p);
    SpelledIndices(d);
    PaddingHasNoIndices(p);
    SameTextIsItself(Spell(d));
    UpperOfSameText(Spell(d), Spell(d));
    SameTextIsItself(Padding(p));
    UpperOfSameText(Padding(p), Padding(p));
    IndicesConcat(Spell(d), Padding(p));
    UpperOfSameText(text, if Text.SameButCase(text, Encode(bytes)) then Encode(bytes) else Spell(d));
  }
}
