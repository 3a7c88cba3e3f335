/** The edge function's answer for a link that forwards the visitor's query string.

    The redirect service has the raw query and folds `URLSearchParams.set` over it. The
    edge has only an object: each name once, in property-enumeration order. */
module EdgeRedirect {
  import opened Options
  import opened Unicode
  import opened FormUrlencoded
  import Decimal

  const UNLOCK_KEY: JsString := [0x6B]  // "k"
  const QUESTION: CodeUnit := 0x3F

  /* URLSearchParams.set */

  function Names(pairs: seq<Pair>): set<JsString> {
    set p <- pairs :: p.name
  }

  function Without(pairs: seq<Pair>, key: JsString): seq<Pair> {
    if pairs == [] then []
    else if pairs[0].name == key then Without(pairs[1..], key)
    else [pairs[0]] + Without(pairs[1..], key)
  }

  /** Section 6.2 of the URL Standard: the first pair of that name takes the value,
      the later ones go, and the pair is appended when there is none. */
  function Set(pairs: seq<Pair>, key: JsString, value: JsString): seq<Pair> {
    if pairs == [] then [Pair(key, value)]
    else if pairs[0].name == key then [Pair(key, value)] + Without(pairs[1..], key)
    else [pairs[0]] + Set(pairs[1..], key, value)
  }

  /** One incoming pair: the unlock token is ours and is not forwarded. */
  function Forward(pairs: seq<Pair>, p: Pair): seq<Pair> {
    if p.name == UNLOCK_KEY then pairs else Set(pairs, p.name, p.value)
  }

  function ForwardAll(pairs: seq<Pair>, incoming: seq<Pair>): seq<Pair> {
    if incoming == [] then pairs
    else
      var n := |incoming| - 1;
      Forward(ForwardAll(pairs, incoming[..n]), incoming[n])
  }

  lemma {:induction false} WithoutSnoc(pairs: seq<Pair>, p: Pair, key: JsString)
    ensures Without(pairs + [p], key) == Without(pairs, key) + if p.name == key then [] else [p]
  {
    if pairs == [] {
      assert pairs + [p] == [p];
    } else {
      assert (pairs + [p])[1..] == pairs[1..] + [p];
      WithoutSnoc(pairs[1..], p, key);
    }
  }

  lemma {:induction false} SetAt(pairs: seq<Pair>, at: nat, key: JsString, value: JsString)
    requires at < |pairs| && pairs[at].name == key
    requires forall i :: 0 <= i < at ==> pairs[i].name != key
    ensures Set(pairs, key, value) == pairs[..at] + [Pair(key, value)] + Without(pairs[at + 1..], key)
  {
    if at > 0 {
      SetAt(pairs[1..], at - 1, key, value);
      assert pairs[1..][at..] == pairs[at + 1..];
      assert pairs[..at] == [pairs[0]] + pairs[1..][..at - 1];
    }
  }

  lemma {:induction false} SetAbsent(pairs: seq<Pair>, key: JsString, value: JsString)
    requires forall i :: 0 <= i < |pairs| ==> pairs[i].name != key
    ensures Set(pairs, key, value) == pairs + [Pair(key, value)]
  {
    if pairs != [] {
      SetAbsent(pairs[1..], key, value);
      assert pairs == [pairs[0]] + pairs[1..];
    }
  }

  lemma WithoutNothing(key: JsString)
    ensures Without([], key) == []
  {
  }

  method SetParam(pairs: seq<Pair>, key: JsString, value: JsString) returns (out: seq<Pair>)
    ensures out == Set(pairs, key, value)
  {
    var at := -1;
    var i := 0;
    while i < |pairs|
      invariant 0 <= i <= |pairs| && at == -1
      invariant forall j :: 0 <= j < i ==> pairs[j].name != key
    {
      if pairs[i].name == key {
        at := i;
        break;
      }
      i := i + 1;
    }
    if at == -1 {
      SetAbsent(pairs, key, value);
      return pairs + [Pair(key, value)];
    }
    SetAt(pairs, at, key, value);
    hide Set, Without;
    WithoutNothing(key);
    out := [];
    var j := 0;
    while j < |pairs|
      invariant 0 <= j <= |pairs|
      invariant j <= at ==> out == pairs[..j]
      invariant j > at ==> out == pairs[..at] + [Pair(key, value)] + Without(pairs[at + 1..j], key)
    {
      assert pairs[..j + 1] == pairs[..j] + [pairs[j]];
      if j > at {
        assert pairs[at + 1..j + 1] == pairs[at + 1..j] + [pairs[j]];
        WithoutSnoc(pairs[at + 1..j], pairs[j], key);
      }
      if j == at {
        out := out + [Pair(key, value)];
      } else if pairs[j].name != key {
        out := out + [pairs[j]];
      }
      j := j + 1;
    }
    assert pairs[at + 1..j] == pairs[at + 1..];
  }

  /* The event's querystring object. */

  /** The digit strings the edge refuses: /^(0|[1-9][0-9]*)$/ */
  predicate IsIndexLike(name: JsString) {
    name == [0x30]
    || (name != [] && name[0] != 0x30 && forall u <- name :: 0x30 <= u <= 0x39)
  }

  function IndexValue(name: JsString): int {
    if name == [] then 0
    else
      var n := |name| - 1;
      IndexValue(name[..n]) * 10 + (name[n] as int - 0x30)
  }

  /** The decimal text of a number. */
  function Numeral(n: nat): JsString {
    Decimal.ValueOfNat(n);
    CodeUnits(Decimal.OfNat(n))
  }

  function CodeUnits(s: string): JsString
    requires Decimal.AllDigits(s)
  {
    seq(|s|, i requires 0 <= i < |s| => assert Decimal.IsDigit(s[i]); s[i] as int)
  }

  /** An array index of ECMA-262 section 6.1.7: such keys enumerate first. */
  predicate IsArrayIndex(name: JsString) {
    exists n: nat :: n < 0xFFFF_FFFF && name == Numeral(n)
  }

  datatype Entry = Entry(value: Option<JsString>, multiValue: Option<seq<JsString>>)

  /** One step of a `for ... in` over the object, in enumeration order. */
  datatype Property = Property(name: JsString, own: bool, entry: Option<Entry>)

  /** All the values a name arrived with, in order. */
  datatype Group = Group(name: JsString, values: seq<JsString>)

  function Position(groups: seq<Group>, name: JsString): (i: nat)
    ensures i <= |groups|
    ensures forall j :: 0 <= j < i ==> groups[j].name != name
    ensures i < |groups| ==> groups[i].name == name
  {
    if groups == [] || groups[0].name == name then 0 else 1 + Position(groups[1..], name)
  }

  /** The object's properties in creation order: a name is created by its first
      occurrence and collects the values of the later ones. */
  function Grouped(raw: seq<Pair>): (gs: seq<Group>)
    ensures forall g <- gs :: g.values != []
  {
    if raw == [] then []
    else
      var n := |raw| - 1;
      var gs, p := Grouped(raw[..n]), raw[n];
      var i := Position(gs, p.name);
      if i < |gs| then gs[i := Group(p.name, gs[i].values + [p.value])]
      else gs + [Group(p.name, [p.value])]
  }

  function AsProperty(g: Group): Property
    requires g.values != []
  {
    Property(g.name, true, Some(Entry(Some(g.values[0]), if |g.values| > 1 then Some(g.values) else None)))
  }

  function InsertByIndex(g: Group, sorted: seq<Group>): seq<Group> {
    if sorted == [] || IndexValue(g.name) <= IndexValue(sorted[0].name) then [g] + sorted
    else [sorted[0]] + InsertByIndex(g, sorted[1..])
  }

  /** Array indices in ascending order. */
  function IndexGroups(gs: seq<Group>): seq<Group> {
    if gs == [] then []
    else if IsArrayIndex(gs[0].name) then InsertByIndex(gs[0], IndexGroups(gs[1..]))
    else IndexGroups(gs[1..])
  }

  function OtherGroups(gs: seq<Group>): seq<Group> {
    if gs == [] then []
    else if IsArrayIndex(gs[0].name) then OtherGroups(gs[1..])
    else [gs[0]] + OtherGroups(gs[1..])
  }

  /** OrdinaryOwnPropertyKeys (section 10.1.11.1 of ECMA-262): array indices first,
      then the other strings in creation order. */
  function Enumerated(gs: seq<Group>): (keys: seq<Group>)
    ensures multiset(keys) == multiset(gs)
  {
    EnumeratedMembers(gs);
    IndexGroups(gs) + OtherGroups(gs)
  }

  function Properties(gs: seq<Group>): seq<Property>
    requires forall g <- gs :: g.values != []
  {
    if gs == [] then [] else [AsProperty(gs[0])] + Properties(gs[1..])
  }

  /** What the event carries for a raw query. */
  function EventQuerystring(raw: seq<Pair>): seq<Property> {
    var gs := Grouped(raw);
    SameMembers(Enumerated(gs), gs);
    Properties(Enumerated(gs))
  }

  function LastValue(e: Entry): JsString {
    if e.multiValue.Some? && e.multiValue.value != [] then e.multiValue.value[|e.multiValue.value| - 1]
    else e.value.GetOr([])
  }

  predicate Refused(qs: seq<Property>) {
    exists p <- qs :: p.own && IsIndexLike(p.name)
  }

  function OwnPairs(qs: seq<Property>): seq<Pair> {
    if qs == [] then []
    else
      var n := |qs| - 1;
      OwnPairs(qs[..n])
      + if qs[n].own && qs[n].entry.Some? then [Pair(qs[n].name, LastValue(qs[n].entry.value))] else []
  }

  method IncomingPairs(qs: seq<Property>) returns (pairs: Option<seq<Pair>>)
    ensures pairs == if Refused(qs) then None else Some(OwnPairs(qs))
  {
    var out: seq<Pair> := [];
    var i := 0;
    while i < |qs|
      invariant 0 <= i <= |qs|
      invariant !Refused(qs[..i]) && out == OwnPairs(qs[..i])
    {
      assert qs[..i + 1][..i] == qs[..i];
      var p := qs[i];
      i := i + 1;
      if !p.own {
        continue;
      }
      if IsIndexLike(p.name) {
        return None;
      }
      if p.entry.None? {
        continue;
      }
      var value := p.entry.value.value.GetOr([]);
      if p.entry.value.multiValue.Some? && |p.entry.value.multiValue.value| > 0 {
        var many := p.entry.value.multiValue.value;
        value := many[|many| - 1];
      }
      out := out + [Pair(p.name, value)];
    }
    assert qs[..i] == qs;
    return Some(out);
  }

  /* The answer. */

  /** The value the worker stores for a link. */
  datatype KvsValue = KvsValue(
    destination: JsString,
    forwardQuery: bool,
    base: Option<JsString>,
    params: Option<seq<Pair>>,
    hash: Option<JsString>)

  datatype EdgeOutcome = Location(url: JsString) | FallThrough | Threw

  function Rebuilt(base: JsString, pairs: seq<Pair>, hash: JsString): EdgeOutcome {
    if !WellFormedPairs(pairs) then Threw
    else
      var query: JsString := Serialize(pairs);
      Location(base + (if query == [] then [] else [QUESTION] + query) + hash)
  }

  function EdgeOutcomeFor(parsed: KvsValue, qs: seq<Property>): EdgeOutcome {
    if !parsed.forwardQuery then Location(parsed.destination)
    else if Refused(qs) then FallThrough
    else if OwnPairs(qs) == [] then Location(parsed.destination)
    else if parsed.base.None? then FallThrough
    else Rebuilt(parsed.base.value, ForwardAll(parsed.params.GetOr([]), OwnPairs(qs)), parsed.hash.GetOr([]))
  }

  method EdgeLocation(parsed: KvsValue, qs: seq<Property>) returns (answer: EdgeOutcome)
    ensures answer == EdgeOutcomeFor(parsed, qs)
  {
    if !parsed.forwardQuery {
      return Location(parsed.destination);
    }
    var pairs := IncomingPairs(qs);
    if pairs.None? {
      return FallThrough;
    }
    var incoming := pairs.value;
    if |incoming| == 0 {
      return Location(parsed.destination);
    }
    if parsed.base.None? {
      return FallThrough;
    }
    var merged := parsed.params.GetOr([]);
    var j := 0;
    while j < |incoming|
      invariant 0 <= j <= |incoming|
      invariant merged == ForwardAll(parsed.params.GetOr([]), incoming[..j])
    {
      assert incoming[..j + 1][..j] == incoming[..j];
      if incoming[j].name != UNLOCK_KEY {
        merged := SetParam(merged, incoming[j].name, incoming[j].value);
      }
      j := j + 1;
    }
    assert incoming[..j] == incoming;
    var query := SerialiseParams(merged);
    if query.None? {
      return Threw;
    }
    return Location(parsed.base.value + (if |query.value| > 0 then [QUESTION] + query.value else [])
                    + parsed.hash.GetOr([]));
  }

  /** What `decide` does around it for a key-value hit: an unlock token, a value
      without a destination or an exception all go to the origin. */
  function Answer(parsed: KvsValue, raw: seq<Pair>): EdgeOutcome {
    if UNLOCK_KEY in Names(raw) || parsed.destination == [] then FallThrough
    else
      var answer := EdgeOutcomeFor(parsed, EventQuerystring(raw));
      if answer.Threw? then FallThrough else answer
  }

  /* Merging each name once, with its last value, is merging every raw pair. */

  function Collapsed(gs: seq<Group>): (pairs: seq<Pair>)
    requires forall g <- gs :: g.values != []
    ensures |pairs| == |gs|
    ensures forall i :: 0 <= i < |gs| ==> pairs[i] == Pair(gs[i].name, gs[i].values[|gs[i].values| - 1])
  {
    seq(|gs|, i requires 0 <= i < |gs| => Pair(gs[i].name, gs[i].values[|gs[i].values| - 1]))
  }

  predicate DistinctNames(pairs: seq<Pair>) {
    forall i, j :: 0 <= i < j < |pairs| ==> pairs[i].name != pairs[j].name
  }

  lemma {:induction false} WithoutSet(pairs: seq<Pair>, gone: JsString, key: JsString, value: JsString)
    requires gone != key
    ensures Without(Set(pairs, key, value), gone) == Set(Without(pairs, gone), key, value)
  {
    if pairs == [] {
    } else if pairs[0].name == key {
      WithoutCommutes(pairs[1..], gone, key);
      assert Set(pairs, key, value)[1..] == Without(pairs[1..], key);
      assert Without(pairs, gone) == [pairs[0]] + Without(pairs[1..], gone);
      assert Without(pairs, gone)[1..] == Without(pairs[1..], gone);
    } else {
      WithoutSet(pairs[1..], gone, key, value);
      assert Set(pairs, key, value)[1..] == Set(pairs[1..], key, value);
      if pairs[0].name != gone {
        assert Without(pairs, gone)[1..] == Without(pairs[1..], gone);
      }
    }
  }

  lemma {:induction false} WithoutCommutes(pairs: seq<Pair>, a: JsString, b: JsString)
    ensures Without(Without(pairs, a), b) == Without(Without(pairs, b), a)
  {
    if pairs != [] {
      WithoutCommutes(pairs[1..], a, b);
      if pairs[0].name != a {
        assert Without(pairs, a)[1..] == Without(pairs[1..], a);
      }
      if pairs[0].name != b {
        assert Without(pairs, b)[1..] == Without(pairs[1..], b);
      }
    }
  }

  lemma {:induction false} WithoutTwice(pairs: seq<Pair>, key: JsString)
    ensures Without(Without(pairs, key), key) == Without(pairs, key)
  {
    if pairs != [] {
      WithoutTwice(pairs[1..], key);
      if pairs[0].name != key {
        assert Without(pairs, key)[1..] == Without(pairs[1..], key);
      }
    }
  }

  lemma {:induction false} SetTwice(pairs: seq<Pair>, key: JsString, v: JsString, w: JsString)
    ensures Set(Set(pairs, key, v), key, w) == Set(pairs, key, w)
  {
    if pairs == [] {
    } else if pairs[0].name == key {
      assert Set(pairs, key, v)[1..] == Without(pairs[1..], key);
      WithoutTwice(pairs[1..], key);
    } else {
      assert Set(pairs, key, v)[1..] == Set(pairs[1..], key, v);
      SetTwice(pairs[1..], key, v, w);
    }
  }

  /** Setting a name that is present commutes with setting another name. */
  lemma {:induction false} SetsCommute(pairs: seq<Pair>, a: JsString, v: JsString, b: JsString, w: JsString)
    requires a != b && a in Names(pairs)
    ensures Set(Set(pairs, a, v), b, w) == Set(Set(pairs, b, w), a, v)
  {
    if pairs[0].name == a {
      assert Set(pairs, a, v)[1..] == Without(pairs[1..], a);
      assert Set(pairs, b, w)[1..] == Set(pairs[1..], b, w);
      WithoutSet(pairs[1..], a, b, w);
    } else if pairs[0].name == b {
      assert Set(pairs, a, v)[1..] == Set(pairs[1..], a, v);
      assert Set(pairs, b, w)[1..] == Without(pairs[1..], b);
      WithoutSet(pairs[1..], b, a, v);
    } else {
      assert Set(pairs, a, v)[1..] == Set(pairs[1..], a, v);
      assert Set(pairs, b, w)[1..] == Set(pairs[1..], b, w);
      SetsCommute(pairs[1..], a, v, b, w);
    }
  }

  lemma {:induction false} WithoutNames(pairs: seq<Pair>, key: JsString)
    ensures Names(Without(pairs, key)) == Names(pairs) - {key}
  {
    if pairs != [] {
      WithoutNames(pairs[1..], key);
      assert Names(pairs) == {pairs[0].name} + Names(pairs[1..]);
      if pairs[0].name != key {
        assert Names(Without(pairs, key)) == {pairs[0].name} + Names(Without(pairs[1..], key));
      }
    }
  }

  lemma {:induction false} SetNames(pairs: seq<Pair>, key: JsString, value: JsString)
    ensures Names(Set(pairs, key, value)) == Names(pairs) + {key}
  {
    if pairs != [] {
      assert Names(pairs) == {pairs[0].name} + Names(pairs[1..]);
      if pairs[0].name == key {
        WithoutNames(pairs[1..], key);
        assert Names(Set(pairs, key, value)) == {key} + Names(Without(pairs[1..], key));
      } else {
        SetNames(pairs[1..], key, value);
        assert Names(Set(pairs, key, value)) == {pairs[0].name} + Names(Set(pairs[1..], key, value));
      }
    }
  }

  /** The merged query has both sides' names, but for the unlock token k of the visitor's. */
  lemma {:induction false} ForwardAllNames(pairs: seq<Pair>, incoming: seq<Pair>)
    ensures Names(ForwardAll(pairs, incoming)) == Names(pairs) + (Names(incoming) - {[0x6B]})
  {
    if incoming != [] {
      var n := |incoming| - 1;
      ForwardAllNames(pairs, incoming[..n]);
      assert incoming == incoming[..n] + [incoming[n]];
      assert Names(incoming) == Names(incoming[..n]) + {incoming[n].name};
      SetNames(ForwardAll(pairs, incoming[..n]), incoming[n].name, incoming[n].value);
    }
  }

  /** Changing the value of one of the merged names in place is merging the new
      value last. */
  lemma {:induction false} ForwardReplaced(pairs: seq<Pair>, once: seq<Pair>, i: nat, p: Pair)
    requires i < |once| && once[i].name == p.name && DistinctNames(once)
    ensures ForwardAll(pairs, once[i := p]) == Forward(ForwardAll(pairs, once), p)
    decreases |once|
  {
    var n := |once| - 1;
    var q := once[n];
    if i == n {
      assert once[i := p][..n] == once[..n];
      SetTwice(ForwardAll(pairs, once[..n]), p.name, q.value, p.value);
    } else {
      assert once[i := p][..n] == once[..n][i := p];
      ForwardReplaced(pairs, once[..n], i, p);
      var before := ForwardAll(pairs, once[..n]);
      assert ForwardAll(pairs, once) == Forward(before, q);
      assert ForwardAll(pairs, once[i := p]) == Forward(Forward(before, p), q);
      if p.name != UNLOCK_KEY && q.name != UNLOCK_KEY {
        ForwardAllNames(pairs, once[..n]);
        assert once[..n][i].name in Names(once[..n]);
        SetsCommute(before, p.name, p.value, q.name, q.value);
      }
    }
  }

  function GroupNames(gs: seq<Group>): set<JsString> {
    set g <- gs :: g.name
  }

  predicate DistinctGroups(gs: seq<Group>) {
    forall i, j :: 0 <= i < j < |gs| ==> gs[i].name != gs[j].name
  }

  lemma {:induction false} GroupedDistinct(raw: seq<Pair>)
    ensures DistinctGroups(Grouped(raw))
  {
    if raw != [] {
      GroupedDistinct(raw[..|raw| - 1]);
    }
  }

  lemma GroupNamesUpdate(gs: seq<Group>, i: nat, g: Group)
    requires i < |gs| && gs[i].name == g.name
    ensures GroupNames(gs[i := g]) == GroupNames(gs)
  {
    var after := gs[i := g];
    assert forall j :: 0 <= j < |gs| ==> after[j].name == gs[j].name;
    forall x | x in GroupNames(gs)
      ensures x in GroupNames(after)
    {
      var j :| 0 <= j < |gs| && gs[j].name == x;
      assert after[j] in after;
    }
    forall x | x in GroupNames(after)
      ensures x in GroupNames(gs)
    {
      var j :| 0 <= j < |gs| && after[j].name == x;
      assert gs[j] in gs;
    }
  }

  lemma {:induction false} GroupedNames(raw: seq<Pair>)
    ensures GroupNames(Grouped(raw)) == Names(raw)
  {
    if raw != [] {
      var n := |raw| - 1;
      GroupedNames(raw[..n]);
      var gs, p := Grouped(raw[..n]), raw[n];
      var i := Position(gs, p.name);
      assert raw == raw[..n] + [p];
      assert Names(raw) == Names(raw[..n]) + {p.name};
      if i < |gs| {
        GroupNamesUpdate(gs, i, Group(p.name, gs[i].values + [p.value]));
        assert gs[i].name in GroupNames(gs);
      } else {
        assert GroupNames(gs + [Group(p.name, [p.value])]) == GroupNames(gs) + {p.name};
      }
    }
  }

  /** Folding `set` over the names taken once each, with their last values, in
      first-arrival order is folding it over every raw pair. */
  lemma {:induction false} MergingOnceIsMergingAll(pairs: seq<Pair>, raw: seq<Pair>)
    ensures ForwardAll(pairs, Collapsed(Grouped(raw))) == ForwardAll(pairs, raw)
  {
    if raw != [] {
      var n := |raw| - 1;
      MergingOnceIsMergingAll(pairs, raw[..n]);
      MergingOneMore(pairs, raw[..n], raw);
    }
  }

  lemma MergingOneMore(pairs: seq<Pair>, before: seq<Pair>, raw: seq<Pair>)
    requires raw != [] && before == raw[..|raw| - 1]
    ensures ForwardAll(pairs, Collapsed(Grouped(raw)))
         == Forward(ForwardAll(pairs, Collapsed(Grouped(before))), raw[|raw| - 1])
  {
    hide Forward, ForwardAll;
    var gs, p := Grouped(before), raw[|raw| - 1];
    var once, i := Collapsed(gs), Position(gs, p.name);
    if i < |gs| {
      GroupedDistinct(before);
      CollapsedUpdate(gs, i, p);
      ForwardReplaced(pairs, once, i, p);
    } else {
      CollapsedAppend(gs, p);
      ForwardAllSnoc(pairs, once, p);
    }
  }

  lemma CollapsedUpdate(gs: seq<Group>, i: nat, p: Pair)
    requires forall g <- gs :: g.values != []
    requires i < |gs|
    ensures Collapsed(gs[i := Group(p.name, gs[i].values + [p.value])]) == Collapsed(gs)[i := p]
  {
  }

  lemma CollapsedAppend(gs: seq<Group>, p: Pair)
    requires forall g <- gs :: g.values != []
    ensures Collapsed(gs + [Group(p.name, [p.value])]) == Collapsed(gs) + [p]
  {
  }

  lemma ForwardAllSnoc(pairs: seq<Pair>, incoming: seq<Pair>, p: Pair)
    ensures ForwardAll(pairs, incoming + [p]) == Forward(ForwardAll(pairs, incoming), p)
  {
    assert (incoming + [p])[..|incoming|] == incoming;
  }

  /* Index-like names. */

  lemma NumeralNext(n: nat)
    ensures Numeral(n) == if n < 10 then [0x30 + n] else Numeral(n / 10) + [0x30 + n % 10]
  {
    Decimal.ValueOfNat(n);
    Decimal.ValueOfNat(n / 10);
  }

  lemma NumeralAppend(v: nat, digit: nat)
    requires digit < 10
    ensures Numeral(digit) == [0x30 + digit]
    ensures v >= 1 ==> Numeral(v * 10 + digit) == Numeral(v) + [0x30 + digit]
  {
    hide Numeral;
    NumeralNext(digit);
    NumeralNext(v * 10 + digit);
  }

  lemma IndexValueAppend(front: JsString, u: CodeUnit)
    ensures IndexValue(front + [u]) == IndexValue(front) * 10 + (u as int - 0x30)
    ensures IndexValue([]) == 0
  {
    assert (front + [u])[..|front|] == front;
  }

  /** A string of digits without a leading zero is the decimal text of its value. */
  lemma {:induction false} DigitsAreNumeral(name: JsString)
    requires name != [] && name[0] != 0x30 && forall i :: 0 <= i < |name| ==> 0x30 <= name[i] <= 0x39
    ensures IndexValue(name) >= 1 && name == Numeral(IndexValue(name))
  {
    hide IndexValue, Numeral;
    var n := |name| - 1;
    var front, u := name[..n], name[n];
    assert name == front + [u];
    IndexValueAppend(front, u);
    if n > 0 {
      DigitsAreNumeral(front);
      NumeralAppend(IndexValue(front), u - 0x30);
    } else {
      NumeralAppend(0, u - 0x30);
    }
  }

  /** What the edge refuses is exactly the decimal texts of the natural numbers. */
  lemma IndexLikeIffNumeral(name: JsString)
    ensures IsIndexLike(name) <==> exists n: nat :: name == Numeral(n)
  {
    if n: nat :| name == Numeral(n) {
      Decimal.ValueOfNat(n);
      Decimal.NoLeadingZero(n);
      assert forall i :: 0 <= i < |name| ==> Decimal.IsDigit(Decimal.OfNat(n)[i]);
    } else if IsIndexLike(name) {
      NumeralNext(0);
      if name != [0x30] {
        assert forall i :: 0 <= i < |name| ==> name[i] in name;
        DigitsAreNumeral(name);
      }
    }
  }

  /** So every name that an engine enumerates out of order is refused. */
  lemma ArrayIndexIsIndexLike(name: JsString)
    ensures IsArrayIndex(name) ==> IsIndexLike(name)
  {
    IndexLikeIffNumeral(name);
  }

  /* Enumeration order is arrival order exactly when no array index is present. */

  lemma {:induction false} NoIndexEnumeration(gs: seq<Group>)
    requires forall g <- gs :: !IsArrayIndex(g.name)
    ensures IndexGroups(gs) == [] && OtherGroups(gs) == gs
  {
    if gs != [] {
      NoIndexEnumeration(gs[1..]);
      assert gs == [gs[0]] + gs[1..];
    }
  }

  lemma {:induction false} InsertMembers(g: Group, sorted: seq<Group>)
    ensures multiset(InsertByIndex(g, sorted)) == multiset{g} + multiset(sorted)
  {
    if sorted != [] {
      InsertMembers(g, sorted[1..]);
      assert sorted == [sorted[0]] + sorted[1..];
    }
  }

  predicate Ascending(gs: seq<Group>) {
    forall i, j :: 0 <= i < j < |gs| ==> IndexValue(gs[i].name) <= IndexValue(gs[j].name)
  }

  lemma {:induction false} InsertAscends(g: Group, sorted: seq<Group>)
    requires Ascending(sorted)
    ensures Ascending(InsertByIndex(g, sorted))
  {
    hide IndexValue;
    if sorted != [] && IndexValue(g.name) > IndexValue(sorted[0].name) {
      InsertAscends(g, sorted[1..]);
      InsertMembers(g, sorted[1..]);
      var rest := InsertByIndex(g, sorted[1..]);
      forall j | 0 <= j < |rest|
        ensures IndexValue(sorted[0].name) <= IndexValue(rest[j].name)
      {
        assert rest[j] in multiset(rest);
        assert rest[j] == g || rest[j] in sorted[1..];
      }
    }
  }

  /** Array indices enumerate in ascending order. */
  lemma {:induction false} IndicesAscend(gs: seq<Group>)
    ensures Ascending(IndexGroups(gs))
  {
    hide IsArrayIndex;
    if gs != [] {
      IndicesAscend(gs[1..]);
      InsertAscends(gs[0], IndexGroups(gs[1..]));
    }
  }

  lemma {:induction false} EnumeratedMembers(gs: seq<Group>)
    ensures multiset(IndexGroups(gs) + OtherGroups(gs)) == multiset(gs)
  {
    if gs != [] {
      EnumeratedMembers(gs[1..]);
      assert gs == [gs[0]] + gs[1..];
      if IsArrayIndex(gs[0].name) {
        InsertMembers(gs[0], IndexGroups(gs[1..]));
      }
    }
  }

  lemma SameMembers<T>(a: seq<T>, b: seq<T>)
    requires multiset(a) == multiset(b)
    ensures forall x :: x in a <==> x in b
  {
    assert forall x :: x in a <==> x in multiset(a);
    assert forall x :: x in b <==> x in multiset(b);
  }

  lemma {:induction false} PropertiesRefused(gs: seq<Group>)
    requires forall g <- gs :: g.values != []
    ensures Refused(Properties(gs)) <==> exists g <- gs :: IsIndexLike(g.name)
  {
    if gs != [] {
      PropertiesRefused(gs[1..]);
      assert gs == [gs[0]] + gs[1..];
      assert Properties(gs) == [AsProperty(gs[0])] + Properties(gs[1..]);
      assert Properties(gs)[0] == AsProperty(gs[0]);
      assert gs[0] in gs;
    }
  }

  lemma {:induction false} PropertiesPairs(gs: seq<Group>)
    requires forall g <- gs :: g.values != []
    ensures OwnPairs(Properties(gs)) == Collapsed(gs)
  {
    if gs != [] {
      PropertiesPairs(gs[1..]);
      OwnPairsCons(AsProperty(gs[0]), Properties(gs[1..]));
      var first := AsProperty(gs[0]);
      assert LastValue(first.entry.value) == gs[0].values[|gs[0].values| - 1];
      assert Collapsed(gs) == [Pair(first.name, LastValue(first.entry.value))] + Collapsed(gs[1..]);
    }
  }

  lemma {:induction false} OwnPairsCons(p: Property, qs: seq<Property>)
    requires p.own && p.entry.Some?
    ensures OwnPairs([p] + qs) == [Pair(p.name, LastValue(p.entry.value))] + OwnPairs(qs)
  {
    var all := [p] + qs;
    if qs == [] {
      assert all == [p] && all[..0] == [];
    } else {
      assert all[..|qs|] == [p] + qs[..|qs| - 1];
      OwnPairsCons(p, qs[..|qs| - 1]);
    }
  }

  /** What the edge reads out of the event object: nothing when a raw name is
      index-like, otherwise each raw name once in arrival order. */
  lemma EventPairs(raw: seq<Pair>)
    ensures Refused(EventQuerystring(raw)) <==> exists p <- raw :: IsIndexLike(p.name)
    ensures !Refused(EventQuerystring(raw)) ==> OwnPairs(EventQuerystring(raw)) == Collapsed(Grouped(raw))
  {
    hide IsIndexLike, IsArrayIndex;
    var gs := Grouped(raw);
    SameMembers(Enumerated(gs), gs);
    PropertiesRefused(Enumerated(gs));
    IndexLikeNames(raw, gs);
    if !Refused(EventQuerystring(raw)) {
      forall g | g in gs
        ensures !IsArrayIndex(g.name)
      {
        ArrayIndexIsIndexLike(g.name);
      }
      NoIndexEnumeration(gs);
      assert Enumerated(gs) == gs;
      PropertiesPairs(gs);
    }
  }

  /** Why index-like names are refused: when an array index arrives after another name, the
      object yields it first, and merging in that order gives another query; so with ?a=1&7=2. */
  lemma IndexNamesLoseOrder(p: Pair, index: nat, value: JsString)
    requires !IsIndexLike(p.name) && p.name != UNLOCK_KEY && index < 0xFFFF_FFFF
    ensures var q := Pair(Numeral(index), value);
      && OwnPairs(EventQuerystring([p, q])) == [q, p]
      && ForwardAll([], [p, q]) == [p, q] != ForwardAll([], OwnPairs(EventQuerystring([p, q])))
  {
    hide ForwardAll, Properties, OwnPairs, Grouped, Collapsed, IsIndexLike, IsArrayIndex, Numeral, Enumerated;
    var q := Pair(Numeral(index), value);
    var gp, gq := Group(p.name, [p.value]), Group(q.name, [q.value]);
    NumeralIsNotUnlock(index);
    NumeralIsIndex(index);
    ArrayIndexIsIndexLike(p.name);
    TwoGroups(p, q);
    IndexFirst(gp, gq);
    PropertiesPairs([gq, gp]);
    assert Collapsed([gq, gp]) == [q, p];
    TwoForwarded(p, q);
    TwoForwarded(q, p);
    assert [p, q][0] != [q, p][0];
  }

  lemma NumeralIsNotUnlock(n: nat)
    ensures Numeral(n) != UNLOCK_KEY
  {
    NumeralNext(n);
  }

  lemma NumeralIsIndex(n: nat)
    requires n < 0xFFFF_FFFF
    ensures IsArrayIndex(Numeral(n))
  {
    hide Numeral;
  }

  lemma IndexFirst(other: Group, index: Group)
    requires !IsArrayIndex(other.name) && IsArrayIndex(index.name)
    ensures Enumerated([other, index]) == [index, other]
  {
    hide IsArrayIndex;
    assert [other, index][1..] == [index] && [index][1..] == [];
    assert IndexGroups([index]) == [index] && OtherGroups([index]) == [];
    assert IndexGroups([other, index]) == [index] && OtherGroups([other, index]) == [other];
  }

  lemma TwoGroups(p: Pair, q: Pair)
    requires p.name != q.name
    ensures Grouped([p, q]) == [Group(p.name, [p.value]), Group(q.name, [q.value])]
  {
    assert [p, q][..1] == [p] && [p][..0] == [];
    assert Grouped([p]) == [Group(p.name, [p.value])];
  }

  lemma TwoForwarded(p: Pair, q: Pair)
    requires p.name != q.name && p.name != UNLOCK_KEY && q.name != UNLOCK_KEY
    ensures ForwardAll([], [p, q]) == [p, q]
  {
    ForwardAllSnoc([], [], p);
    ForwardAllSnoc([], [p], q);
    assert [] + [p] == [p] && [p] + [q] == [p, q];
    assert ForwardAll([], []) == [];
    assert Set([], p.name, p.value) == [p];
    assert [p][1..] == [] && Set([], q.name, q.value) == [q];
    assert Set([p], q.name, q.value) == [p] + [q];
  }

  lemma IndexLikeNames(raw: seq<Pair>, gs: seq<Group>)
    requires gs == Grouped(raw)
    ensures (exists g <- gs :: IsIndexLike(g.name)) <==> exists p <- raw :: IsIndexLike(p.name)
  {
    GroupedNames(raw);
    if g :| g in gs && IsIndexLike(g.name) {
      assert g.name in GroupNames(gs);
    }
    if p :| p in raw && IsIndexLike(p.name) {
      assert p.name in Names(raw);
    }
  }
}
