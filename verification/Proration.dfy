/** Proration of a plan change in the middle of a paid period, in integer minor
    units. The unused fraction is an exact real here. */
module Proration {
  import opened IntRange
  import opened Options

  datatype Currency = INR | USD

  datatype Direction = Upgrade | Downgrade | Same

  datatype Input = Input(
    oldPeriodPriceMinor: int,
    newPeriodPriceMinor: int,
    periodStartMs: int,
    periodEndMs: int,
    changeAtMs: int,
    currency: Currency)

  datatype Result = Result(
    amountMinor: int,
    unusedFraction: real,
    oldPlanCreditMinor: int,
    newPlanChargeMinor: int,
    direction: Direction,
    currency: Currency)

  function PeriodLengthMs(start: int, end: int): (len: int)
    ensures len >= 1
  {
    if end - start > 0 then end - start else 1
  }

  function Clamped(start: int, end: int, at: int): int {
    Min(Max(at, start), end)
  }

  function UnusedFraction(start: int, end: int, at: int): (f: real)
    ensures 0.0 <= f <= 1.0
  {
    var len := PeriodLengthMs(start, end);
    var remaining := end - Clamped(start, end, at);
    if remaining <= 0 then 0.0
    else if remaining >= len then 1.0
    else
      QuotientBetween(remaining, len);
      remaining as real / len as real
  }

  lemma QuotientBetween(a: int, b: int)
    requires 0 < a < b
    ensures 0.0 < a as real / b as real < 1.0
  {
  }

  /** Math.sign(x) * Math.round(Math.abs(x)) */
  function RoundMinorHalfUp(x: real): int {
    if x > 0.0 then (x + 0.5).Floor
    else if x < 0.0 then -((-x + 0.5).Floor)
    else 0
  }

  function ProrationDirection(oldPrice: int, newPrice: int): Direction {
    if newPrice > oldPrice then Upgrade else if newPrice < oldPrice then Downgrade else Same
  }

  /** A part of a period's price, as its own invoice line. */
  function Line(fraction: real, price: int): int {
    RoundMinorHalfUp(fraction * price as real)
  }

  /** None when the input does not parse: a list price is never negative. */
  function Prorate(input: Input): Option<Result> {
    if input.oldPeriodPriceMinor < 0 || input.newPeriodPriceMinor < 0 then None
    else
      var fraction := UnusedFraction(input.periodStartMs, input.periodEndMs, input.changeAtMs);
      var credit := Line(fraction, input.oldPeriodPriceMinor);
      var charge := Line(fraction, input.newPeriodPriceMinor);
      Some(Result(charge - credit, fraction, credit, charge,
                  ProrationDirection(input.oldPeriodPriceMinor, input.newPeriodPriceMinor), input.currency))
  }

  /* Rounding. */

  /** The nearest whole unit, ties away from zero, on either side of zero. */
  lemma RoundsToNearest(x: real)
    ensures -0.5 <= RoundMinorHalfUp(x) as real - x <= 0.5
    ensures x >= 0.0 ==> RoundMinorHalfUp(x) as real - x > -0.5
    ensures RoundMinorHalfUp(-x) == -RoundMinorHalfUp(x)
  {
  }

  lemma RoundingIsMonotone(x: real, y: real)
    requires x <= y
    ensures RoundMinorHalfUp(x) <= RoundMinorHalfUp(y)
  {
  }

  lemma WholeAmountsStay(n: int)
    ensures RoundMinorHalfUp(n as real) == n
  {
  }

  lemma ProductIsMonotone(f: real, g: real, p: int, q: int)
    requires 0.0 <= f <= g && 0 <= p <= q
    ensures f * p as real <= g * q as real
  {
    assert f * p as real <= g * p as real;
    assert g * p as real <= g * q as real;
  }

  lemma ShareOfPrice(f: real, p: int)
    requires 0.0 <= f <= 1.0 && 0 <= p
    ensures 0.0 <= f * p as real <= p as real
  {
  }

  /** A line shrinks as time passes and grows with the price. */
  lemma LineIsMonotone(f: real, g: real, p: int, q: int)
    requires 0.0 <= f <= g <= 1.0 && 0 <= p <= q
    ensures 0 <= Line(f, p) <= Line(g, q) <= q
  {
    hide RoundMinorHalfUp;
    var x, y := f * p as real, g * q as real;
    ProductIsMonotone(f, g, p, q);
    ShareOfPrice(f, p);
    ShareOfPrice(g, q);
    RoundingIsMonotone(0 as real, x);
    RoundingIsMonotone(x, y);
    RoundingIsMonotone(y, q as real);
    WholeAmountsStay(0);
    WholeAmountsStay(q);
  }

  /* The fraction. */

  lemma QuotientIsMonotone(a: int, b: int, len: int)
    requires a <= b && len >= 1
    ensures a as real / len as real <= b as real / len as real
  {
  }

  lemma FractionShrinks(start: int, end: int, early: int, late: int)
    requires early <= late
    ensures UnusedFraction(start, end, late) <= UnusedFraction(start, end, early)
  {
    var len := PeriodLengthMs(start, end);
    QuotientIsMonotone(end - Clamped(start, end, late), end - Clamped(start, end, early), len);
  }

  /** In a proper period the three branches are one quotient; a period that does not
      end after its start has nothing unused at any instant. */
  lemma FractionIsQuotient(start: int, end: int, at: int)
    ensures start < end ==>
      UnusedFraction(start, end, at) == (end - Clamped(start, end, at)) as real / (end - start) as real
    ensures start >= end ==> UnusedFraction(start, end, at) == 0.0
  {
    if start < end {
      var len := (end - start) as real;
      assert len / len == 1.0;
    }
  }

  /** Within the period the fraction is the time that remains over the period; before it
      all is unused and after it nothing is. */
  lemma FractionIsRemainder(start: int, end: int, at: int)
    ensures start <= at < end ==> UnusedFraction(start, end, at) == (end - at) as real / (end - start) as real
    ensures at <= start < end ==> UnusedFraction(start, end, at) == 1.0
    ensures at >= end || start >= end ==> UnusedFraction(start, end, at) == 0.0
  {
    FractionIsQuotient(start, end, at);
  }

  /* One change. */

  /** A line is its own price times the unused fraction, to the nearest unit. */
  predicate IsLineOf(line: int, fraction: real, price: int) {
    -0.5 <= line as real - fraction * price as real <= 0.5 && 0 <= line <= price
  }

  lemma LineIsNearest(f: real, price: int)
    requires 0.0 <= f <= 1.0 && price >= 0
    ensures IsLineOf(Line(f, price), f, price)
  {
    hide RoundMinorHalfUp;
    LineIsMonotone(f, f, price, price);
    RoundsToNearest(f * price as real);
  }

  /** Prices of at least 0 have a record: the credit is the old price's line, the charge the
      new one's, and the amount is what the charge exceeds the credit by. */
  lemma RecordHasItsLines(input: Input)
    ensures Prorate(input).Some? <==> input.oldPeriodPriceMinor >= 0 && input.newPeriodPriceMinor >= 0
    ensures Prorate(input).Some? ==>
      var r := Prorate(input).value;
      && r.unusedFraction == UnusedFraction(input.periodStartMs, input.periodEndMs, input.changeAtMs)
      && IsLineOf(r.oldPlanCreditMinor, r.unusedFraction, input.oldPeriodPriceMinor)
      && IsLineOf(r.newPlanChargeMinor, r.unusedFraction, input.newPeriodPriceMinor)
      && r.amountMinor == r.newPlanChargeMinor - r.oldPlanCreditMinor
      && (r.direction == Upgrade <==> input.newPeriodPriceMinor > input.oldPeriodPriceMinor)
      && (r.direction == Downgrade <==> input.newPeriodPriceMinor < input.oldPeriodPriceMinor)
      && r.currency == input.currency
  {
    hide Line, IsLineOf, UnusedFraction;
    if Prorate(input).Some? {
      var f := UnusedFraction(input.periodStartMs, input.periodEndMs, input.changeAtMs);
      LineIsNearest(f, input.oldPeriodPriceMinor);
      LineIsNearest(f, input.newPeriodPriceMinor);
    }
  }

  /** The amount has the sign of the price move, and the opposite move at the same
      instant settles the opposite amount. */
  lemma AmountFollowsDirection(input: Input)
    requires input.oldPeriodPriceMinor >= 0 && input.newPeriodPriceMinor >= 0
    ensures var r := Prorate(input).value;
      && (r.direction == Upgrade ==> 0 <= r.amountMinor <= input.newPeriodPriceMinor)
      && (r.direction == Downgrade ==> -input.oldPeriodPriceMinor <= r.amountMinor <= 0)
      && (r.direction == Same ==> r.amountMinor == 0)
      && var back := input.(oldPeriodPriceMinor := input.newPeriodPriceMinor,
                            newPeriodPriceMinor := input.oldPeriodPriceMinor);
         Prorate(back).value.amountMinor == -r.amountMinor
  {
    var f := UnusedFraction(input.periodStartMs, input.periodEndMs, input.changeAtMs);
    var p, q := input.oldPeriodPriceMinor, input.newPeriodPriceMinor;
    LineIsMonotone(f, f, Min(p, q), Max(p, q));
  }

  /* A period with any number of changes. */

  datatype Change = Change(atMs: int, newPriceMinor: int)

  /** Changes in time order, none before `from`, all to list prices. */
  predicate GoodChanges(from: int, changes: seq<Change>)
    decreases |changes|
  {
    changes == []
    || (from <= changes[0].atMs && changes[0].newPriceMinor >= 0 && GoodChanges(changes[0].atMs, changes[1..]))
  }

  function ResultAt(start: int, end: int, price: int, c: Change): Result
    requires price >= 0 && c.newPriceMinor >= 0
  {
    Prorate(Input(price, c.newPriceMinor, start, end, c.atMs, INR)).value
  }

  function AmountAt(start: int, end: int, price: int, c: Change): int
    requires price >= 0 && c.newPriceMinor >= 0
  {
    ResultAt(start, end, price, c).amountMinor
  }

  /** What the changes settle, one after the other. */
  function Settled(start: int, end: int, price: int, from: int, changes: seq<Change>): int
    requires price >= 0 && GoodChanges(from, changes)
    decreases |changes|
  {
    if changes == [] then 0
    else
      AmountAt(start, end, price, changes[0])
      + Settled(start, end, changes[0].newPriceMinor, changes[0].atMs, changes[1..])
  }

  /** The record of the last change. */
  function LastResult(start: int, end: int, price: int, from: int, changes: seq<Change>): Result
    requires price >= 0 && GoodChanges(from, changes) && changes != []
    decreases |changes|
  {
    var c := changes[0];
    if |changes| == 1 then ResultAt(start, end, price, c)
    else LastResult(start, end, c.newPriceMinor, c.atMs, changes[1..])
  }

  lemma {:induction false} SettledCoversLastCharge(start: int, end: int, price: int, from: int, changes: seq<Change>)
    requires price >= 0 && GoodChanges(from, changes) && changes != []
    ensures Line(UnusedFraction(start, end, from), price) + Settled(start, end, price, from, changes)
         >= LastResult(start, end, price, from, changes).newPlanChargeMinor >= 0
    decreases |changes|
  {
    hide Line, UnusedFraction;
    var c := changes[0];
    var here, there := UnusedFraction(start, end, from), UnusedFraction(start, end, c.atMs);
    FractionShrinks(start, end, from, c.atMs);
    LineIsMonotone(there, here, price, price);
    LineIsMonotone(there, there, c.newPriceMinor, c.newPriceMinor);
    if |changes| > 1 {
      SettledCoversLastCharge(start, end, c.newPriceMinor, c.atMs, changes[1..]);
    }
  }

  /** A prepaid period and any changes in it: what the customer has paid in all never
      falls below the charge line of the last change's record, so credits never pay out
      more than was paid in. */
  lemma PaymentsCoverLastCharge(start: int, end: int, price: int, from: int, changes: seq<Change>)
    requires price >= 0 && GoodChanges(from, changes) && changes != []
    ensures price + Settled(start, end, price, from, changes)
         >= LastResult(start, end, price, from, changes).newPlanChargeMinor >= 0
  {
    var f := UnusedFraction(start, end, from);
    LineIsMonotone(f, f, price, price);
    SettledCoversLastCharge(start, end, price, from, changes);
  }

  /** The price of each plan times the milliseconds it was in force, to the end of
      the period. */
  function Weighted(start: int, end: int, price: int, from: int, changes: seq<Change>): int
    decreases |changes|
  {
    if changes == [] then price * (end - Clamped(start, end, from))
    else
      price * (Clamped(start, end, changes[0].atMs) - Clamped(start, end, from))
      + Weighted(start, end, changes[0].newPriceMinor, changes[0].atMs, changes[1..])
  }

  /** How far one settlement is from the exact price of the remaining time. */
  lemma OneChangeError(f: real, p: int, q: int)
    requires 0.0 <= f && p >= 0 && q >= 0
    ensures -1.0 < (Line(f, q) - Line(f, p)) as real - f * q as real + f * p as real < 1.0
  {
    ProductIsMonotone(0.0, f, 0, p);
    ProductIsMonotone(0.0, f, 0, q);
    RoundsToNearest(f * p as real);
    RoundsToNearest(f * q as real);
  }

  lemma Distribute(p: int, a: int, b: int, len: real)
    requires len > 0.0
    ensures p as real * (a as real / len) == (p * a) as real / len
    ensures (p * (a + b)) as real / len == (p * a) as real / len + (p * b) as real / len
  {
    assert (p * a) as real == p as real * a as real;
    assert (p * b) as real == p as real * b as real;
    assert p * (a + b) == p * a + p * b;
  }

  function ExactFor(start: int, end: int, price: int, from: int, changes: seq<Change>): real
    requires start < end
  {
    Weighted(start, end, price, from, changes) as real / (end - start) as real
  }

  lemma ExactStep(start: int, end: int, price: int, from: int, changes: seq<Change>)
    requires start < end && changes != []
    ensures var c := changes[0];
      ExactFor(start, end, price, from, changes)
      == UnusedFraction(start, end, from) * price as real - UnusedFraction(start, end, c.atMs) * price as real
         + ExactFor(start, end, c.newPriceMinor, c.atMs, changes[1..])
  {
    var c, len := changes[0], (end - start) as real;
    var here, there := Clamped(start, end, from), Clamped(start, end, c.atMs);
    FractionIsQuotient(start, end, from);
    FractionIsQuotient(start, end, c.atMs);
    Distribute(price, end - here, 0, len);
    Distribute(price, end - there, there - here, len);
    var rest := Weighted(start, end, c.newPriceMinor, c.atMs, changes[1..]);
    SumOverLength(price * (there - here), rest, len);
  }

  lemma SumOverLength(a: int, b: int, len: real)
    requires len > 0.0
    ensures (a + b) as real / len == a as real / len + b as real / len
  {
  }

  lemma ExactLast(start: int, end: int, price: int, from: int)
    requires start < end
    ensures ExactFor(start, end, price, from, []) == UnusedFraction(start, end, from) * price as real
  {
    FractionIsQuotient(start, end, from);
    Distribute(price, end - Clamped(start, end, from), 0, (end - start) as real);
  }

  lemma AmountIsLines(start: int, end: int, price: int, c: Change)
    requires price >= 0 && c.newPriceMinor >= 0
    ensures var f := UnusedFraction(start, end, c.atMs);
      AmountAt(start, end, price, c) == Line(f, c.newPriceMinor) - Line(f, price)
  {
  }

  lemma {:induction false} SettledIsNearExact(start: int, end: int, price: int, from: int, changes: seq<Change>)
    requires start < end && price >= 0 && GoodChanges(from, changes)
    ensures var error := Settled(start, end, price, from, changes) as real
                         + UnusedFraction(start, end, from) * price as real
                         - ExactFor(start, end, price, from, changes);
      if changes == [] then error == 0.0 else -(|changes| as real) < error < |changes| as real
    decreases |changes|
  {
    hide Line, ExactFor, UnusedFraction, AmountAt;
    if changes == [] {
      ExactLast(start, end, price, from);
    } else {
      var c := changes[0];
      AmountIsLines(start, end, price, c);
      ExactStep(start, end, price, from, changes);
      OneChangeError(UnusedFraction(start, end, c.atMs), price, c.newPriceMinor);
      SettledIsNearExact(start, end, c.newPriceMinor, c.atMs, changes[1..]);
    }
  }

  /** The total paid for a period that was prepaid at its start is less than one
      minor unit per change away from the exact time-weighted cost. */
  lemma PaymentsAreNearExact(start: int, end: int, price: int, changes: seq<Change>)
    requires start < end && price >= 0 && GoodChanges(start, changes) && changes != []
    ensures var error := (price + Settled(start, end, price, start, changes)) as real
                         - ExactFor(start, end, price, start, changes);
      -(|changes| as real) < error < |changes| as real
  {
    SettledIsNearExact(start, end, price, start, changes);
    FractionIsQuotient(start, end, start);
    var len := (end - start) as real;
    assert len / len == 1.0;
  }
}
