/** The bitwise operators of ECMA-262 (sections 6.1.6.1.9 to 6.1.6.1.20) on 32-bit words
    read as unsigned numbers: bit by bit for `|` and `&`, and as scaling for the shifts. */
module Words {

  const WORD := 0x1_0000_0000

  function Power2(k: nat): (p: nat)
    ensures p >= 1
  {
    if k == 0 then 1 else 2 * Power2(k - 1)
  }

  function Or(a: nat, b: nat): nat {
    if a == 0 && b == 0 then 0 else 2 * Or(a / 2, b / 2) + if a % 2 == 1 || b % 2 == 1 then 1 else 0
  }

  function And(a: nat, b: nat): nat {
    if a == 0 || b == 0 then 0 else 2 * And(a / 2, b / 2) + if a % 2 == 1 && b % 2 == 1 then 1 else 0
  }

  function ShiftLeft(v: nat, k: nat): nat {
    v * Power2(k) % WORD
  }

  function ShiftRight(v: nat, k: nat): nat {
    NaturalQuotient(v, Power2(k));
    v / Power2(k)
  }

  lemma NaturalQuotient(v: nat, p: nat)
    requires p >= 1
    ensures v / p >= 0
  {
    if v / p < 0 {
      Gap(p, v / p, 0);
    }
  }

  lemma Grows(m: nat, k: nat)
    requires k >= 1
    ensures m * k >= m
  {
  }

  lemma Gap(m: nat, a: int, b: int)
    requires a < b
    ensures m * a + m <= m * b
  {
    Grows(m, b - a);
    assert m * (b - a) == m * b - m * a;
  }

  lemma NotBelow(m: nat, a: int, b: int, r: nat, s: nat)
    requires r < m && m * a + r == m * b + s
    ensures b <= a
  {
    if a < b {
      Gap(m, a, b);
    }
  }

  lemma DivisionIsUnique(n: nat, m: nat, q: int, r: nat)
    requires r < m && n == m * q + r
    ensures n / m == q && n % m == r
  {
    var q', r' := n / m, n % m;
    assert n == m * q' + r';
    NotBelow(m, q, q', r, r');
    NotBelow(m, q', q, r', r);
  }

  lemma Halve(a: nat, p: nat)
    ensures a * (2 * p) / 2 == a * p && a * (2 * p) % 2 == 0
  {
    assert a * (2 * p) == 2 * (a * p);
  }

  /** Bits that do not overlap are added. */
  lemma {:induction false} OrDisjoint(a: nat, b: nat, k: nat)
    requires b < Power2(k)
    ensures Or(a * Power2(k), b) == a * Power2(k) + b
  {
    if k == 0 {
      OrZero(a);
    } else {
      Halve(a, Power2(k - 1));
      OrDisjoint(a, b / 2, k - 1);
    }
  }

  lemma {:induction false} OrZero(a: nat)
    ensures Or(a, 0) == a
  {
    if a > 0 {
      OrZero(a / 2);
    }
  }

  lemma Double(v: nat, p: nat)
    requires p >= 1
    ensures v % (2 * p) == 2 * (v / 2 % p) + v % 2
  {
    var q, r := v / 2 / p, v / 2 % p;
    assert v / 2 == p * q + r;
    assert v == (2 * p) * q + (2 * r + v % 2) by {
      assert (2 * p) * q == 2 * (p * q);
    }
    DivisionIsUnique(v, 2 * p, q, 2 * r + v % 2);
  }

  lemma OddMask(p: nat)
    requires p >= 1
    ensures (2 * p - 1) / 2 == p - 1 && (2 * p - 1) % 2 == 1
  {
  }

  /** Masking the low bits is the remainder. */
  lemma {:induction false} AndMask(v: nat, k: nat)
    ensures And(v, Power2(k) - 1) == v % Power2(k)
  {
    if k == 0 || v == 0 {
      AndZero(v, k);
    } else {
      hide And, Power2;
      PowerStep(k);
      AndMask(v / 2, k - 1);
      MaskStep(v, Power2(k - 1));
    }
  }

  lemma AndZero(v: nat, k: nat)
    requires k == 0 || v == 0
    ensures And(v, Power2(k) - 1) == v % Power2(k)
  {
    if k == 0 {
      assert Power2(k) - 1 == 0;
    } else {
      hide Power2;
      DivisionIsUnique(0, Power2(k), 0, 0);
    }
  }

  lemma PowerStep(k: nat)
    requires k > 0
    ensures Power2(k) == 2 * Power2(k - 1)
  {
  }

  lemma MaskStep(v: nat, p: nat)
    requires v > 0 && p >= 1 && And(v / 2, p - 1) == v / 2 % p
    ensures And(v, 2 * p - 1) == v % (2 * p)
  {
    OddMask(p);
    AndStep(v, 2 * p - 1);
    hide And;
    Double(v, p);
  }

  lemma AndStep(a: nat, b: nat)
    requires a > 0 && b > 0
    ensures And(a, b) == 2 * And(a / 2, b / 2) + if a % 2 == 1 && b % 2 == 1 then 1 else 0
  {
  }

  lemma Powers2()
    ensures Power2(5) == 32 && Power2(7) == 128 && Power2(8) == 0x100
    ensures Power2(16) == 0x1_0000 && Power2(24) == 0x100_0000 && Power2(27) == 0x800_0000
  {
    assert Power2(4) == 16 by {
      assert Power2(2) == 4;
    }
    assert Power2(8) == 256 by {
      assert Power2(6) == 64;
    }
    assert Power2(12) == 4096 by {
      assert Power2(10) == 1024;
    }
    assert Power2(16) == 0x1_0000 by {
      assert Power2(14) == 0x4000;
    }
    assert Power2(20) == 0x10_0000 by {
      assert Power2(18) == 0x4_0000;
    }
    assert Power2(24) == 0x100_0000 by {
      assert Power2(22) == 0x40_0000;
    }
    assert Power2(27) == 8 * Power2(24);
  }

  /** (value << 5) | digit is one digit more, modulo the word. */
  lemma PushDigitWord(value: nat, digit: nat)
    requires value < WORD && digit < 32
    ensures Or(ShiftLeft(value, 5), digit) == (value * 32 + digit) % WORD
  {
    hide Or;
    Powers2();
    var high, low := value / 0x800_0000, value % 0x800_0000;
    assert value * 32 == WORD * high + low * 32;
    DivisionIsUnique(value * 32, WORD, high, low * 32);
    DivisionIsUnique(value * 32 + digit, WORD, high, low * 32 + digit);
    OrDisjoint(low, digit, 5);
  }
}
