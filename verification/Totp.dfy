/** The one-time codes of the two-factor journeys, against sections 5.2 and 5.3 of
    RFC 4226 and the thirty-second step of RFC 6238. */
module Totp {
  import opened Base32
  import opened Bytes
  import opened Words
  import Decimal

  function NoMac(key: seq<Byte>, message: seq<Byte>): seq<Byte> {
    seq(20, _ => 0)
  }

  /** An HMAC-SHA-1, whatever it computes: twenty bytes from a key and a message. */
  type Mac = f: (seq<Byte>, seq<Byte>) -> seq<Byte> | forall key, message :: |f(key, message)| == 20
    witness NoMac

  /** The big-endian word of four bytes. */
  function Word(b0: nat, b1: nat, b2: nat, b3: nat): nat {
    b0 * 0x100_0000 + b1 * 0x1_0000 + b2 * 0x100 + b3
  }

  lemma FourBytes(b: seq<Byte>)
    requires |b| == 4
    ensures Number(b, 256) == Word(b[0], b[1], b[2], b[3])
  {
    assert b == [] + [b[0]] + [b[1]] + [b[2]] + [b[3]];
    NumberSnoc([], b[0], 256);
    NumberSnoc([] + [b[0]], b[1], 256);
    NumberSnoc([] + [b[0]] + [b[1]], b[2], 256);
    NumberSnoc([] + [b[0]] + [b[1]] + [b[2]], b[3], 256);
  }

  method WriteUInt32BE(buffer: array<Byte>, value: nat, offset: nat)
    requires value < WORD && offset + 4 <= buffer.Length
    modifies buffer
    ensures Number(buffer[offset..offset + 4], 256) == value
    ensures forall i :: 0 <= i < buffer.Length && !(offset <= i < offset + 4) ==> buffer[i] == old(buffer[i])
  {
    var v1 := value / 256;
    var v2 := v1 / 256;
    var v3 := v2 / 256;
    buffer[offset] := v3;
    buffer[offset + 1] := v2 % 256;
    buffer[offset + 2] := v1 % 256;
    buffer[offset + 3] := value % 256;
    FourBytes(buffer[offset..offset + 4]);
  }

  /** The moving factor: the step as eight big-endian bytes, written as two 32-bit
      halves, the low one by ToUint32. */
  method CounterBytes(step: nat) returns (counter: seq<Byte>)
    requires step < WORD * WORD
    ensures |counter| == 8 && Number(counter, 256) == step
  {
    var buffer := new Byte[8](_ => 0);
    assert step / WORD < WORD;
    WriteUInt32BE(buffer, step / WORD, 0);
    ghost var high := buffer[0..4];
    WriteUInt32BE(buffer, step % WORD, 4);
    assert buffer[0..4] == high;
    counter := buffer[..];
    assert counter == buffer[0..4] + buffer[4..8];
    AppendBytes(buffer[0..4], buffer[4..8]);
    Powers();
  }

  /** Section 5.3: the four bytes at the offset in the last byte's low nibble, less
      their top bit. */
  function DynamicTruncation(mac: seq<Byte>): nat
    requires |mac| == 20
  {
    var offset := mac[19] % 16;
    Number(mac[offset..offset + 4], 256) % 0x8000_0000
  }

  function Zeros(n: nat): string {
    if n == 0 then "" else "0" + Zeros(n - 1)
  }

  /** padStart(width, "0") */
  function PadStart(s: string, width: nat): string {
    Zeros(if |s| < width then width - |s| else 0) + s
  }

  lemma {:induction false} ZerosKeepValue(n: nat, s: string)
    requires Decimal.AllDigits(s)
    ensures |Zeros(n) + s| == n + |s|
    ensures Decimal.AllDigits(Zeros(n) + s)
    ensures Decimal.Value(Zeros(n) + s) == Decimal.Value(s)
  {
    if n > 0 {
      ZerosKeepValue(n - 1, s);
      assert Zeros(n) + s == "0" + (Zeros(n - 1) + s);
      LeadingZero(Zeros(n - 1) + s);
    } else {
      assert Zeros(n) + s == s;
    }
  }

  lemma {:induction false} LeadingZero(s: string)
    requires Decimal.AllDigits(s)
    ensures Decimal.AllDigits("0" + s) && Decimal.Value("0" + s) == Decimal.Value(s)
  {
    var t := "0" + s;
    assert Decimal.AllDigits(t);
    if s == "" {
      assert t[..0] == "";
    } else {
      var n := |s| - 1;
      assert Decimal.AllDigits(s[..n]);
      LeadingZero(s[..n]);
      assert t[..|t| - 1] == "0" + s[..n];
    }
  }

  function Power10(n: nat): nat {
    if n == 0 then 1 else 10 * Power10(n - 1)
  }

  lemma {:induction false} DigitCount(v: nat, n: nat)
    requires n >= 1 && v < Power10(n)
    ensures |Decimal.OfNat(v)| <= n
  {
    if v >= 10 {
      assert n >= 2;
      DigitCount(v / 10, n - 1);
    }
  }

  /** The masks, shifts and ors that take the code out of the digest. */
  method Truncated(mac: seq<Byte>) returns (value: nat)
    requires |mac| == 20
    ensures value == DynamicTruncation(mac) % 1_000_000
  {
    hide Number, DynamicTruncation, Or, And, ShiftLeft;
    Masks(mac);
    var offset := And(mac[|mac| - 1], 0x0F);
    var word := Or(Or(Or(ShiftLeft(And(mac[offset], 0x7F), 24),
                         ShiftLeft(And(mac[offset + 1], 0xFF), 16)),
                      ShiftLeft(And(mac[offset + 2], 0xFF), 8)),
                   And(mac[offset + 3], 0xFF));
    TruncatedWord(mac, offset);
    value := word % 1_000_000;
  }

  /** Six digits, zero-filled, that spell the truncated value modulo a million, for the
      key the secret's text carries and the counter of the current step. */
  method TotpCode(secret: string, nowMs: nat, hmac: Mac) returns (code: string, ghost key: seq<Byte>)
    requires nowMs / 30_000 < WORD * WORD
    ensures forall bytes :: Carries(secret, bytes) ==> key == bytes
    ensures |code| == 6 && Decimal.AllDigits(code)
    ensures exists counter: seq<Byte> ::
      && |counter| == 8 && Number(counter, 256) == nowMs / 30_000
      && Decimal.Value(code) == DynamicTruncation(hmac(key, counter)) % 1_000_000
  {
    hide Number, Decimal.OfNat, Decimal.Value, DynamicTruncation, Carries;
    var k := Base32Decode(secret);
    key := k;
    var step := nowMs / 1000 / 30;
    assert step == nowMs / 30_000;
    var counter := CounterBytes(step);
    var mac := hmac(k, counter);
    var value := Truncated(mac);
    var digits := Decimal.OfNat(value);
    Decimal.ValueOfNat(value);
    SixDigits(value);
    ZerosKeepValue(6 - |digits|, digits);
    code := PadStart(digits, 6);
  }

  lemma SixDigits(value: nat)
    requires value < 1_000_000
    ensures |Decimal.OfNat(value)| <= 6
  {
    assert Power10(2) == 100 && Power10(3) == 10 * Power10(2) && Power10(4) == 10 * Power10(3);
    assert Power10(5) == 10 * Power10(4) && Power10(6) == 10 * Power10(5);
    DigitCount(value, 6);
  }

  lemma Mask(v: nat, k: nat)
    requires k in [4, 7, 8]
    ensures And(v, Power2(k) - 1) == v % Power2(k)
    ensures Power2(4) == 16 && Power2(7) == 128 && Power2(8) == 256
  {
    Powers2();
    AndMask(v, k);
    assert Power2(4) == 16 by {
      assert Power2(5) == 2 * Power2(4);
    }
  }

  lemma Masks(mac: seq<Byte>)
    requires |mac| == 20
    ensures And(mac[19], 0x0F) == mac[19] % 16
  {
    Mask(mac[19], 4);
  }

  /** Four bytes, the first below 128, shifted into place and or-ed together. */
  lemma OredBytes(b0: nat, b1: Byte, b2: Byte, b3: Byte)
    requires b0 < 128
    ensures Or(Or(Or(ShiftLeft(b0, 24), ShiftLeft(b1, 16)), ShiftLeft(b2, 8)), b3) == Word(b0, b1, b2, b3)
  {
    hide Or, Power2;
    Powers2();
    assert ShiftLeft(b0, 24) == b0 * 0x100_0000 && ShiftLeft(b1, 16) == b1 * 0x1_0000 && ShiftLeft(b2, 8) == b2 * 0x100;
    OrDisjoint(b0, b1 * 0x1_0000, 24);
    OrDisjoint(b0 * 0x100 + b1, b2 * 0x100, 16);
    OrDisjoint(b0 * 0x1_0000 + b1 * 0x100 + b2, b3, 8);
  }

  /** The masked, shifted and or-ed bytes are the four bytes less their top bit. */
  lemma TruncatedWord(mac: seq<Byte>, offset: nat)
    requires |mac| == 20 && offset == mac[19] % 16
    ensures Or(Or(Or(ShiftLeft(And(mac[offset], 0x7F), 24),
                     ShiftLeft(And(mac[offset + 1], 0xFF), 16)),
                  ShiftLeft(And(mac[offset + 2], 0xFF), 8)),
               And(mac[offset + 3], 0xFF)) == DynamicTruncation(mac)
  {
    hide Or, And, ShiftLeft, Power2, Number, Word;
    var b := mac[offset..offset + 4];
    assert b[0] == mac[offset] && b[1] == mac[offset + 1] && b[2] == mac[offset + 2] && b[3] == mac[offset + 3];
    Mask(b[0], 7);
    Mask(b[1], 8);
    Mask(b[2], 8);
    Mask(b[3], 8);
    ByteStays(b[1]);
    ByteStays(b[2]);
    ByteStays(b[3]);
    OredBytes(b[0] % 128, b[1], b[2], b[3]);
    FourBytes(b);
    TopBitOfWord(b[0], b[1], b[2], b[3]);
  }

  lemma TopBit(b0: nat, low: nat)
    requires b0 < 256 && low < 0x100_0000
    ensures (b0 * 0x100_0000 + low) % 0x8000_0000 == b0 % 128 * 0x100_0000 + low
  {
    var h, r := b0 / 128, b0 % 128;
    assert b0 * 0x100_0000 + low == h * 0x8000_0000 + (r * 0x100_0000 + low);
  }

  lemma ByteStays(b: Byte)
    ensures b % 256 == b
  {
  }

  lemma TopBitOfWord(b0: Byte, b1: Byte, b2: Byte, b3: Byte)
    ensures Word(b0, b1, b2, b3) % 0x8000_0000 == Word(b0 % 128, b1, b2, b3)
  {
    TopBit(b0, Word(0, b1, b2, b3));
  }
}
