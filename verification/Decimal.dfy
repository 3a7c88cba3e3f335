/** Decimal text: `String(n)` and `parseInt(s, 10)` on integers. */
module Decimal {
  import opened Options
  import opened Text

  predicate IsDigit(c: char) {
    '0' <= c <= '9'
  }

  predicate AllDigits(s: string) {
    forall i :: 0 <= i < |s| ==> IsDigit(s[i])
  }

  function Digit(d: int): char
    requires 0 <= d < 10
  {
    '0' + d as char
  }

  function OfNat(n: nat): string {
    if n < 10 then [Digit(n)] else OfNat(n / 10) + [Digit(n % 10)]
  }

  function OfInt(n: int): string {
    if n < 0 then "-" + OfNat(-n) else OfNat(n)
  }

  function Value(s: string): nat
    requires AllDigits(s)
  {
    if s == "" then 0
    else
      var n := |s| - 1;
      assert AllDigits(s[..n]) && IsDigit(s[n]);
      Value(s[..n]) * 10 + (s[n] as int - '0' as int)
  }

  lemma {:induction false} ValueOfNat(n: nat)
    ensures OfNat(n) != "" && AllDigits(OfNat(n)) && Value(OfNat(n)) == n
  {
    if n >= 10 {
      ValueOfNat(n / 10);
      var s := OfNat(n);
      assert s[..|s| - 1] == OfNat(n / 10);
    } else {
      assert OfNat(n)[..0] == "";
    }
  }

  /** No zero stands in front of another digit. */
  lemma {:induction false} NoLeadingZero(n: nat)
    ensures OfNat(n) != "" && (OfNat(n)[0] == '0' <==> n == 0)
    ensures n == 0 ==> OfNat(n) == "0"
  {
    if n >= 10 {
      NoLeadingZero(n / 10);
    }
  }

  lemma OfNatInjective(m: nat, n: nat)
    requires OfNat(m) == OfNat(n)
    ensures m == n
  {
    ValueOfNat(m);
    ValueOfNat(n);
  }

  lemma OfIntInjective(m: int, n: int)
    requires OfInt(m) == OfInt(n)
    ensures m == n
  {
    ValueOfNat(if m < 0 then -m else m);
    ValueOfNat(if n < 0 then -n else n);
    assert OfInt(m)[0] == '-' <==> m < 0;
    assert OfInt(n)[0] == '-' <==> n < 0;
    if m < 0 {
      assert OfInt(m)[1..] == OfNat(-m) && OfInt(n)[1..] == OfNat(-n);
      OfNatInjective(-m, -n);
    } else {
      OfNatInjective(m, n);
    }
  }

  /** No decimal text contains a character other than a digit or the sign. */
  lemma OfIntCharacters(n: int, c: char)
    requires c in OfInt(n)
    ensures IsDigit(c) || c == '-'
  {
    ValueOfNat(if n < 0 then -n else n);
  }

  /* parseInt */

  function DigitPrefix(s: string): (p: string)
    ensures AllDigits(p)
  {
    if s != "" && IsDigit(s[0]) then [s[0]] + DigitPrefix(s[1..]) else ""
  }

  /** None is NaN. */
  function ParseInt(s: string): Option<int> {
    var t := TrimStart(s);
    var negative := t != "" && t[0] == '-';
    var digits := DigitPrefix(if t != "" && (t[0] == '-' || t[0] == '+') then t[1..] else t);
    var magnitude: int := Value(digits);
    if digits == "" then None else Some(if negative then -magnitude else magnitude)
  }

  lemma {:induction false} DigitPrefixOfDigits(s: string)
    requires AllDigits(s)
    ensures DigitPrefix(s) == s
  {
    if s != "" {
      DigitPrefixOfDigits(s[1..]);
    }
  }

  lemma ParseIntOfDigits(s: string)
    requires s != "" && AllDigits(s)
    ensures ParseInt(s) == Some(Value(s))
    ensures ParseInt("-" + s) == Some(-(Value(s) as int))
  {
    hide Value;
    DigitPrefixOfDigits(s);
    assert IsDigit(s[0]);
    assert TrimStart(s) == s;
    var t := "-" + s;
    assert TrimStart(t) == t && t[1..] == s;
  }

  lemma ParseIntOfInt(n: int)
    ensures ParseInt(OfInt(n)) == Some(n)
  {
    hide ParseInt;
    var m: nat := if n < 0 then -n else n;
    ValueOfNat(m);
    ParseIntOfDigits(OfNat(m));
  }

  /** The text is white space, a sign or none, the longest run of digits, and anything else. */
  predicate Reads(s: string, space: string, sign: string, digits: string, rest: string) {
    && s == space + (sign + (digits + rest))
    && AllSpace(space) && sign in {"", "-", "+"} && digits != "" && AllDigits(digits)
    && (rest == "" || !IsDigit(rest[0]))
  }

  lemma {:induction false} TrimStartOver(space: string, t: string)
    requires AllSpace(space) && (t == "" || !IsSpace(t[0]))
    ensures TrimStart(space + t) == t
  {
    hide IsSpace;
    if space == "" {
      assert space + t == t;
    } else {
      assert (space + t)[1..] == space[1..] + t;
      TrimStartOver(space[1..], t);
    }
  }

  lemma {:induction false} DigitPrefixOver(digits: string, rest: string)
    requires AllDigits(digits) && (rest == "" || !IsDigit(rest[0]))
    ensures DigitPrefix(digits + rest) == digits
  {
    if digits == "" {
      assert digits + rest == rest;
    } else {
      assert (digits + rest)[1..] == digits[1..] + rest;
      DigitPrefixOver(digits[1..], rest);
    }
  }

  lemma {:induction false} DigitPrefixSplits(s: string)
    ensures |DigitPrefix(s)| <= |s| && s[..|DigitPrefix(s)|] == DigitPrefix(s)
    ensures |DigitPrefix(s)| < |s| ==> !IsDigit(s[|DigitPrefix(s)|])
  {
    if s != "" && IsDigit(s[0]) {
      DigitPrefixSplits(s[1..]);
    }
  }

  /** A text that begins with a number is read as that number, whatever follows. */
  lemma ParseIntReadsNumber(s: string, space: string, sign: string, digits: string, rest: string)
    requires Reads(s, space, sign, digits, rest)
    ensures ParseInt(s) == Some(if sign == "-" then -(Value(digits) as int) else Value(digits))
  {
    hide Value, IsSpace, AllSpace;
    var t := sign + (digits + rest);
    assert t[0] == if sign == "" then digits[0] else sign[0];
    NoSpaceThere(t[0]);
    TrimStartOver(space, t);
    assert sign != "" ==> t[1..] == digits + rest;
    assert sign == "" ==> t == digits + rest;
    DigitPrefixOver(digits, rest);
  }

  lemma NoSpaceThere(c: char)
    ensures IsDigit(c) || c == '-' || c == '+' ==> !IsSpace(c)
  {
  }

  /** And no other text is read as a number. */
  lemma ParseIntReadsOnlyNumbers(s: string)
    requires ParseInt(s).Some?
    ensures exists space, sign, digits, rest :: Reads(s, space, sign, digits, rest)
  {
    hide Value, IsSpace, AllSpace;
    var t := TrimStart(s);
    TrimStartShape(s);
    TrimStartDropsSpace(s);
    var sign := if t != "" && t[0] in {'-', '+'} then [t[0]] else "";
    var u := t[|sign|..];
    DigitPrefixSplits(u);
    var digits := DigitPrefix(u);
    var space := s[..|s| - |t|];
    assert u == digits + u[|digits|..] && t == sign + u && s == space + t;
    assert Reads(s, space, sign, digits, u[|digits|..]);
  }
}
