/** The date check on links: a bare YYYY-MM-DD is compared with its own parse, so that
    a day past the end of its month, which the parse rolls over, is refused. Day
    numbers and their inverse are those of section 21.4.1 of ECMA-262. */
module CalendarDate {
  import opened Decimal

  datatype Civil = Civil(year: int, month: int, day: int)

  predicate InLeapYear(y: int) {
    y % 4 == 0 && (y % 100 != 0 || y % 400 == 0)
  }

  function DaysInYear(y: int): int {
    if InLeapYear(y) then 366 else 365
  }

  /** The day number, from 1970-01-01, of the first day of a year. */
  function DayFromYear(y: int): int {
    365 * (y - 1970) + (y - 1969) / 4 - (y - 1901) / 100 + (y - 1601) / 400
  }

  /** How many days of the year precede the month. */
  function MonthStart(y: int, m: int): int
    requires 1 <= m <= 13
  {
    [0, 31, 59, 90, 120, 151, 181, 212, 243, 273, 304, 334, 365][m - 1]
    + if m > 2 && InLeapYear(y) then 1 else 0
  }

  /** Thirty days has September, April, June and November; all the rest have thirty-one,
      except February. */
  function DaysInMonth(y: int, m: int): int
    requires 1 <= m <= 12
  {
    if m == 2 then (if InLeapYear(y) then 29 else 28) else if m in {4, 6, 9, 11} then 30 else 31
  }

  /** The day numbers have months of those lengths. */
  lemma MonthLength(y: int, m: int)
    requires 1 <= m <= 12
    ensures MonthStart(y, m + 1) - MonthStart(y, m) == DaysInMonth(y, m)
  {
  }

  /** A day of the proleptic Gregorian calendar. */
  predicate RealDay(c: Civil) {
    1 <= c.month <= 12 && 1 <= c.day <= DaysInMonth(c.year, c.month)
  }

  /** MakeDay: a day of the month may run past its end. */
  function MakeDay(c: Civil): int
    requires 1 <= c.month <= 12
  {
    DayFromYear(c.year) + MonthStart(c.year, c.month) + c.day - 1
  }

  lemma EveryFourth(y: int)
    ensures (y - 1968) / 4 == (y - 1969) / 4 + if y % 4 == 0 then 1 else 0
  {
  }

  lemma EveryHundredth(y: int)
    ensures (y - 1900) / 100 == (y - 1901) / 100 + if y % 100 == 0 then 1 else 0
  {
  }

  lemma EveryFourHundredth(y: int)
    ensures (y - 1600) / 400 == (y - 1601) / 400 + if y % 400 == 0 then 1 else 0
  {
  }

  lemma HundredsDivide(k: int)
    ensures (100 * k) % 100 == 0
  {
  }

  lemma FoursDivide(k: int)
    ensures (4 * k) % 4 == 0
  {
  }

  lemma LeapRule(y: int)
    ensures y % 400 == 0 ==> y % 100 == 0
    ensures y % 100 == 0 ==> y % 4 == 0
  {
    var h, c := y / 400, y / 100;
    if y % 400 == 0 {
      assert y == 100 * (4 * h);
      HundredsDivide(4 * h);
    }
    if y % 100 == 0 {
      assert y == 4 * (25 * c);
      FoursDivide(25 * c);
    }
  }

  lemma YearLength(y: int)
    ensures DayFromYear(y + 1) == DayFromYear(y) + DaysInYear(y)
  {
    EveryFourth(y);
    EveryHundredth(y);
    EveryFourHundredth(y);
    LeapRule(y);
  }

  lemma {:induction false} YearsInOrder(y: int, z: int)
    requires y <= z
    ensures DayFromYear(y) + 365 * (z - y) <= DayFromYear(z)
    decreases z - y
  {
    if y < z {
      YearLength(z - 1);
      YearsInOrder(y, z - 1);
    }
  }

  /** The largest year that has begun by the day, searched from a year near it. */
  function YearFrom(day: int, y: int): (year: int)
    ensures DayFromYear(year) <= day < DayFromYear(year + 1)
  {
    YearLength(y);
    YearLength(y - 1);
    if day < DayFromYear(y) then YearDown(day, y - 1)
    else YearUp(day, y)
  }

  function YearUp(day: int, y: int): (year: int)
    requires DayFromYear(y) <= day
    ensures DayFromYear(year) <= day < DayFromYear(year + 1)
    decreases day - DayFromYear(y)
  {
    YearLength(y);
    if day < DayFromYear(y + 1) then y else YearUp(day, y + 1)
  }

  function YearDown(day: int, y: int): (year: int)
    requires day < DayFromYear(y + 1)
    ensures DayFromYear(year) <= day < DayFromYear(year + 1)
    decreases DayFromYear(y + 1) - day
  {
    YearLength(y);
    if DayFromYear(y) <= day then y else YearDown(day, y - 1)
  }

  /** The month whose days include the given day of the year. */
  function MonthOf(y: int, dayInYear: int, m: int): (month: int)
    requires 1 <= m <= 12 && MonthStart(y, m) <= dayInYear < DaysInYear(y)
    ensures 1 <= month <= 12 && MonthStart(y, month) <= dayInYear < MonthStart(y, month + 1)
    decreases 12 - m
  {
    if dayInYear < MonthStart(y, m + 1) then m else MonthOf(y, dayInYear, m + 1)
  }

  /** YearFromTime, MonthFromTime and DateFromTime of a day number. */
  function CivilOf(day: int): Civil {
    var y := YearFrom(day, 1970);
    YearLength(y);
    var d := day - DayFromYear(y);
    var m := MonthOf(y, d, 1);
    Civil(y, m, d - MonthStart(y, m) + 1)
  }

  lemma MonthsInOrder(y: int, m: int, n: int)
    requires 1 <= m < n <= 13
    ensures MonthStart(y, m + 1) <= MonthStart(y, n)
  {
  }

  lemma YearIsUnique(y: int, z: int, day: int)
    ensures DayFromYear(y) <= day < DayFromYear(y + 1) && DayFromYear(z) <= day < DayFromYear(z + 1) ==> y == z
  {
    hide DayFromYear;
    if y < z {
      YearsInOrder(y + 1, z);
    } else if z < y {
      YearsInOrder(z + 1, y);
    }
  }

  lemma MonthIsUnique(y: int, m: int, n: int, d: int)
    requires 1 <= m <= 12 && 1 <= n <= 12
    requires MonthStart(y, m) <= d < MonthStart(y, m + 1)
    requires MonthStart(y, n) <= d < MonthStart(y, n + 1)
    ensures m == n
  {
    hide MonthStart;
    if m < n {
      MonthsInOrder(y, m, n);
    } else if n < m {
      MonthsInOrder(y, n, m);
    }
  }

  /** Every day number is a real day, and is that day's number. */
  lemma DayOfCivil(day: int)
    ensures RealDay(CivilOf(day)) && MakeDay(CivilOf(day)) == day
  {
    hide YearFrom, MonthOf, DayFromYear, MonthStart, InLeapYear, DaysInMonth;
    var c := CivilOf(day);
    MonthLength(c.year, c.month);
  }

  /** Day 0 is the first of January 1970. */
  lemma EpochIsDayZero()
    ensures MakeDay(Civil(1970, 1, 1)) == 0 && CivilOf(0) == Civil(1970, 1, 1)
  {
    hide CivilOf, DayFromYear, MonthStart, InLeapYear;
    FirstMonthStarts(1970);
    FirstYearStarts();
    CivilOfDay(Civil(1970, 1, 1));
  }

  lemma FirstYearStarts()
    ensures DayFromYear(1970) == 0
  {
  }

  lemma FirstMonthStarts(y: int)
    ensures MonthStart(y, 1) == 0
  {
  }

  /** The day number of a real day is read back as that day. */
  lemma CivilOfDay(c: Civil)
    requires RealDay(c)
    ensures CivilOf(MakeDay(c)) == c
  {
    hide YearFrom, MonthOf, DayFromYear, MonthStart, InLeapYear;
    FirstMonthStarts(c.year);
    var day := MakeDay(c);
    YearLength(c.year);
    InsideYear(c);
    var y := YearFrom(day, 1970);
    YearLength(y);
    YearIsUnique(y, c.year, day);
    MonthLength(c.year, c.month);
    var d := day - DayFromYear(y);
    MonthIsUnique(y, MonthOf(y, d, 1), c.month, d);
  }

  lemma InsideYear(c: Civil)
    requires RealDay(c)
    ensures 0 <= MonthStart(c.year, c.month) + c.day - 1 < DaysInYear(c.year)
  {
    MonthLength(c.year, c.month);
    if c.month < 12 {
      MonthsInOrder(c.year, c.month, 13);
    }
  }

  /** A day of the month up to 31 that the month does not have is read back in the
      month after. */
  lemma RollsOver(c: Civil)
    requires 1 <= c.month <= 12 && DaysInMonth(c.year, c.month) < c.day <= 31
    ensures c.month < 12
    ensures CivilOf(MakeDay(c)) == Civil(c.year, c.month + 1, c.day - DaysInMonth(c.year, c.month))
  {
    hide CivilOf, DayFromYear, MonthStart;
    var rolled := Civil(c.year, c.month + 1, c.day - DaysInMonth(c.year, c.month));
    ShortMonths(c);
    MonthLength(c.year, c.month);
    CivilOfDay(rolled);
  }

  lemma ShortMonths(c: Civil)
    requires 1 <= c.month <= 12 && DaysInMonth(c.year, c.month) < c.day <= 31
    ensures c.month < 12 && RealDay(Civil(c.year, c.month + 1, c.day - DaysInMonth(c.year, c.month)))
  {
  }

  /* The check. */

  /** /^(\d{4})-(\d{2})-(\d{2})$/ */
  predicate DateOnly(value: string) {
    && |value| == 10 && value[4] == '-' && value[7] == '-'
    && AllDigits(value[..4]) && AllDigits(value[5..7]) && AllDigits(value[8..])
  }

  function Fields(value: string): Civil
    requires DateOnly(value)
  {
    Civil(Value(value[..4]), Value(value[5..7]), Value(value[8..]))
  }

  /** Date.parse reads a bare date whose month and day are in range, even when the
      month is shorter, and rolls it over. */
  predicate ParsesAsDate(c: Civil) {
    1 <= c.month <= 12 && 1 <= c.day <= 31
  }

  /** `parses` is what Date.parse makes of every other text. */
  predicate IsReadableDate(value: string, parses: string -> bool) {
    if value == "" then true
    else if DateOnly(value) then
      var c := Fields(value);
      ParsesAsDate(c) && CivilOf(MakeDay(c)) == c
    else parses(value)
  }

  /** The bare date of a year, a month and a day of the month, real or not. */
  function DateText(y: nat, m: nat, d: nat): string
    requires y < 10_000 && m < 100 && d < 100
  {
    [Digit(y / 1000), Digit(y / 100 % 10), Digit(y / 10 % 10), Digit(y % 10), '-',
     Digit(m / 10), Digit(m % 10), '-', Digit(d / 10), Digit(d % 10)]
  }

  lemma DigitValue(s: string, n: nat)
    requires AllDigits(s) && n < 10
    ensures AllDigits(s + [Digit(n)]) && Value(s + [Digit(n)]) == Value(s) * 10 + n
  {
    assert (s + [Digit(n)])[..|s|] == s;
  }

  lemma TwoDigits(n: nat)
    requires n < 100
    ensures AllDigits([Digit(n / 10), Digit(n % 10)]) && Value([Digit(n / 10), Digit(n % 10)]) == n
  {
    hide Value;
    DigitValue("", n / 10);
    DigitValue("" + [Digit(n / 10)], n % 10);
    NoDigits();
    assert "" + [Digit(n / 10)] + [Digit(n % 10)] == [Digit(n / 10), Digit(n % 10)];
  }

  lemma NoDigits()
    ensures Value("") == 0
  {
  }

  lemma FourDigits(n: nat)
    requires n < 10_000
    ensures var s := [Digit(n / 1000), Digit(n / 100 % 10), Digit(n / 10 % 10), Digit(n % 10)];
      AllDigits(s) && Value(s) == n
  {
    hide Value;
    var high := [Digit(n / 100 / 10), Digit(n / 100 % 10)];
    TwoDigits(n / 100);
    DigitValue(high, n / 10 % 10);
    DigitValue(high + [Digit(n / 10 % 10)], n % 10);
    assert high + [Digit(n / 10 % 10)] + [Digit(n % 10)]
        == [Digit(n / 1000), Digit(n / 100 % 10), Digit(n / 10 % 10), Digit(n % 10)];
  }

  lemma FieldsOfText(y: nat, m: nat, d: nat)
    requires y < 10_000 && m < 100 && d < 100
    ensures DateOnly(DateText(y, m, d)) && Fields(DateText(y, m, d)) == Civil(y, m, d)
  {
    hide Value;
    var text := DateText(y, m, d);
    FourDigits(y);
    TwoDigits(m);
    TwoDigits(d);
    assert text[..4] == [Digit(y / 1000), Digit(y / 100 % 10), Digit(y / 10 % 10), Digit(y % 10)];
    assert text[5..7] == [Digit(m / 10), Digit(m % 10)];
    assert text[8..] == [Digit(d / 10), Digit(d % 10)];
  }

  lemma {:induction false} ValueFits(s: string)
    requires AllDigits(s) && |s| <= 4
    ensures Value(s) < [1, 10, 100, 1000, 10_000][|s|]
  {
    if s != "" {
      var n := |s| - 1;
      assert AllDigits(s[..n]) && IsDigit(s[n]);
      ValueFits(s[..n]);
    }
  }

  /** The texts that the check takes for bare dates are those of a year, a month and a day. */
  lemma BareDatesAreTexts(value: string)
    ensures DateOnly(value) <==>
      exists y: nat, m: nat, d: nat :: y < 10_000 && m < 100 && d < 100 && value == DateText(y, m, d)
  {
    hide Value, AllDigits, DateText;
    if DateOnly(value) {
      var c := Fields(value);
      ValueFits(value[..4]);
      ValueFits(value[5..7]);
      ValueFits(value[8..]);
      FieldsOfText(c.year, c.month, c.day);
      SameFields(value, DateText(c.year, c.month, c.day));
    } else if y: nat, m: nat, d: nat :| y < 10_000 && m < 100 && d < 100 && value == DateText(y, m, d) {
      FieldsOfText(y, m, d);
    }
  }

  lemma SameFields(a: string, b: string)
    requires DateOnly(a) && DateOnly(b) && Fields(a) == Fields(b)
    ensures a == b
  {
    hide Value;
    SameLengthValues(a[..4], b[..4]);
    SameLengthValues(a[5..7], b[5..7]);
    SameLengthValues(a[8..], b[8..]);
    assert a == a[..4] + ['-'] + a[5..7] + ['-'] + a[8..];
    assert b == b[..4] + ['-'] + b[5..7] + ['-'] + b[8..];
  }

  /** A bare date is readable exactly when it names a real day. */
  lemma ReadableIffRealDay(y: nat, m: nat, d: nat, parses: string -> bool)
    requires y < 10_000 && m < 100 && d < 100
    ensures IsReadableDate(DateText(y, m, d), parses) <==> RealDay(Civil(y, m, d))
  {
    hide Value, MakeDay, CivilOf, DaysInMonth, AllDigits, DateText;
    var c := Civil(y, m, d);
    FieldsOfText(y, m, d);
    MonthLengths(c);
    if RealDay(c) {
      CivilOfDay(c);
    } else if ParsesAsDate(c) {
      RollsOver(c);
    }
  }

  /** Everything else is readable if it is empty or `Date.parse` reads it. */
  lemma OtherTextsAreParsed(value: string, parses: string -> bool)
    requires !DateOnly(value)
    ensures IsReadableDate(value, parses) <==> value == "" || parses(value)
  {
  }

  lemma MonthLengths(c: Civil)
    ensures 1 <= c.month <= 12 ==> 28 <= DaysInMonth(c.year, c.month) <= 31
  {
  }

  lemma {:induction false} SameLengthValues(a: string, b: string)
    requires AllDigits(a) && AllDigits(b) && |a| == |b| && Value(a) == Value(b)
    ensures a == b
  {
    if a != "" {
      var n := |a| - 1;
      assert AllDigits(a[..n]) && AllDigits(b[..n]) && IsDigit(a[n]) && IsDigit(b[n]);
      assert Value(a[..n]) == Value(b[..n]) && a[n] == b[n];
      SameLengthValues(a[..n], b[..n]);
      assert a == a[..n] + [a[n]] && b == b[..n] + [b[n]];
    }
  }

  /** So no two readable bare dates store the same day. */
  lemma ReadableDatesAreDistinctDays(a: string, b: string, parses: string -> bool)
    requires DateOnly(a) && DateOnly(b)
    ensures IsReadableDate(a, parses) && IsReadableDate(b, parses) && MakeDay(Fields(a)) == MakeDay(Fields(b)) ==> a == b
  {
    hide Value, MakeDay, CivilOf;
    if Fields(a) == Fields(b) {
      SameFields(a, b);
    }
  }
}
