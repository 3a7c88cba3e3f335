/** The URL that the redirect service builds for a link that forwards the visitor's query,
    and when the edge function's answer is that URL. */
module EdgeAgreement {
  import opened Bytes
  import opened Options
  import opened Unicode
  import opened FormUrlencoded
  import opened EdgeRedirect

  /* The slow path. */

  /** A parsed destination, cut at its query and its fragment; the query, when there is
      one, follows a question mark, and the fragment keeps its own delimiter. */
  datatype UrlParts = UrlParts(base: JsString, search: Option<seq<Byte>>, hash: JsString) {
    function Query(): seq<Byte> {
      search.GetOr([])
    }

    /** The serialization, which `decomposeDestination` cuts and stores. */
    function Href(): JsString {
      base + (if search.Some? then [QUESTION] + search.value else []) + hash
    }
  }

  function StoredValue(destination: JsString, url: Option<UrlParts>, forwardQuery: bool): KvsValue {
    KvsValue(
      if url.Some? then url.value.Href() else destination,
      forwardQuery,
      if forwardQuery && url.Some? then Some(url.value.base) else None,
      if forwardQuery && url.Some? then Some(Parse(url.value.Query())) else None,
      if forwardQuery && url.Some? then Some(url.value.hash) else None)
  }

  /** What the handler passes on of a query: `url.split("?")[1]` ends at the next
      question mark. */
  function Cut(query: seq<Byte>): seq<Byte> {
    query[..IndexOf(query, QUESTION)]
  }

  /** `buildDestination` for a link without UTM values: untouched unless something
      is set, and then re-serialised from the mutated search parameters. */
  function BuildDestination(destination: JsString, url: Option<UrlParts>, forwardQuery: bool, incomingQuery: seq<Byte>): JsString {
    if url.None? then destination
    else
      var u, incoming := url.value, Parse(incomingQuery);
      if !forwardQuery || Names(incoming) <= {UNLOCK_KEY} then u.Href()
      else
        ParseIsWellFormed(incomingQuery);
        ParseIsWellFormed(u.Query());
        ForwardAllWellFormed(Parse(u.Query()), incoming);
        var text: JsString := Serialize(ForwardAll(Parse(u.Query()), incoming));
        u.base + (if text == [] then [] else [QUESTION] + text) + u.hash
  }

  /** The redirect service's answer to a request with the raw query. */
  function ServiceUrl(destination: JsString, url: Option<UrlParts>, forwardQuery: bool, query: seq<Byte>): JsString {
    BuildDestination(destination, url, forwardQuery, Cut(query))
  }

  /* Agreement of the two paths. */

  lemma {:induction false} ForwardAllWellFormed(pairs: seq<Pair>, incoming: seq<Pair>)
    requires WellFormedPairs(pairs) && WellFormedPairs(incoming)
    ensures WellFormedPairs(ForwardAll(pairs, incoming))
  {
    if incoming != [] {
      var n := |incoming| - 1;
      ForwardAllWellFormed(pairs, incoming[..n]);
      SetWellFormed(ForwardAll(pairs, incoming[..n]), incoming[n].name, incoming[n].value);
    }
  }

  lemma {:induction false} SetWellFormed(pairs: seq<Pair>, key: JsString, value: JsString)
    requires WellFormedPairs(pairs) && WellFormed(key) && WellFormed(value)
    ensures WellFormedPairs(Set(pairs, key, value)) && WellFormedPairs(Without(pairs, key))
  {
    if pairs != [] {
      SetWellFormed(pairs[1..], key, value);
    }
  }

  predicate HasIndexLike(raw: seq<Pair>) {
    exists p <- raw :: IsIndexLike(p.name)
  }

  /** The edge's outcome on the event object, in terms of the raw pairs. */
  lemma OutcomeOfEvent(parsed: KvsValue, raw: seq<Pair>)
    ensures EdgeOutcomeFor(parsed, EventQuerystring(raw)) ==
      if !parsed.forwardQuery then Location(parsed.destination)
      else if HasIndexLike(raw) then FallThrough
      else if raw == [] then Location(parsed.destination)
      else if parsed.base.None? then FallThrough
      else Rebuilt(parsed.base.value, ForwardAll(parsed.params.GetOr([]), raw), parsed.hash.GetOr([]))
  {
    hide Rebuilt, EventQuerystring, ForwardAll, IsIndexLike;
    EventPairs(raw);
    MergingOnceIsMergingAll(parsed.params.GetOr([]), raw);
    GroupedEmpty(raw);
  }

  lemma GroupedEmpty(raw: seq<Pair>)
    ensures Grouped(raw) == [] <==> raw == []
  {
  }

  lemma NamesEmpty(raw: seq<Pair>)
    ensures UNLOCK_KEY !in Names(raw) && Names(raw) <= {UNLOCK_KEY} <==> raw == []
  {
    if raw != [] {
      assert raw[0].name in Names(raw);
    }
  }

  lemma NoIndexLikeInEmpty()
    ensures !HasIndexLike([])
  {
  }

  lemma {:induction false} SerializeEmpty(pairs: seq<Pair>)
    requires WellFormedPairs(pairs)
    ensures Serialize(pairs) == [] <==> pairs == []
  {
    ParseRecoversPairs(pairs);
  }

  /** Serializing loses nothing, so it tells pair lists apart. */
  lemma SerializeInjective(a: seq<Pair>, b: seq<Pair>)
    requires WellFormedPairs(a) && WellFormedPairs(b)
    ensures Serialize(a) == Serialize(b) <==> a == b
  {
    hide Serialize, Parse;
    ParseRecoversPairs(a);
    ParseRecoversPairs(b);
  }

  /** A query of no pairs is ampersands only. */
  lemma {:induction false} NoPairsNoQuestion(bs: seq<Byte>)
    requires Parse(bs) == []
    ensures QUESTION !in bs
    decreases |bs|
  {
    if bs != [] {
      var i := IndexOf(bs, AMPERSAND);
      assert i == 0;
      NoPairsNoQuestion(bs[1..]);
      assert bs == [bs[0]] + bs[1..];
    }
  }

  lemma CutWhole(query: seq<Byte>)
    requires QUESTION !in query
    ensures Cut(query) == query
  {
    assert query[..|query|] == query;
  }

  /** Merging nothing but unlock tokens changes nothing. */
  lemma {:induction false} TokensMergeNothing(pairs: seq<Pair>, incoming: seq<Pair>)
    requires Names(incoming) <= {UNLOCK_KEY}
    ensures ForwardAll(pairs, incoming) == pairs
  {
    if incoming != [] {
      var n := |incoming| - 1;
      assert incoming[n].name in Names(incoming);
      assert forall p <- incoming[..n] :: p.name in Names(incoming);
      TokensMergeNothing(pairs, incoming[..n]);
    }
  }

  /* When two queries merge alike. */

  function Values(pairs: seq<Pair>, name: JsString): seq<JsString> {
    if pairs == [] then []
    else (if pairs[0].name == name then [pairs[0].value] else []) + Values(pairs[1..], name)
  }

  function LastOf(pairs: seq<Pair>, name: JsString): JsString
    requires name in Names(pairs)
  {
    var n := |pairs| - 1;
    if pairs[n].name == name then pairs[n].value
    else
      NamesSnoc(pairs);
      LastOf(pairs[..n], name)
  }

  lemma NamesSnoc(pairs: seq<Pair>)
    requires pairs != []
    ensures Names(pairs) == Names(pairs[..|pairs| - 1]) + {pairs[|pairs| - 1].name}
  {
    assert pairs == pairs[..|pairs| - 1] + [pairs[|pairs| - 1]];
  }

  /** What a merge leaves under a name: the last incoming value, or what was there. */
  function Effect(pairs: seq<Pair>, incoming: seq<Pair>, name: JsString): seq<JsString> {
    if name in Names(incoming) then [LastOf(incoming, name)] else Values(pairs, name)
  }

  lemma {:induction false} ValuesWithout(pairs: seq<Pair>, key: JsString, name: JsString)
    ensures Values(Without(pairs, key), name) == if name == key then [] else Values(pairs, name)
  {
    if pairs != [] {
      ValuesWithout(pairs[1..], key, name);
    }
  }

  lemma {:induction false} ValuesOfSet(pairs: seq<Pair>, key: JsString, value: JsString, name: JsString)
    ensures Values(Set(pairs, key, value), name) == if name == key then [value] else Values(pairs, name)
  {
    if pairs == [] {
      assert [Pair(key, value)][1..] == [];
    } else if pairs[0].name == key {
      ValuesWithout(pairs[1..], key, name);
      assert Set(pairs, key, value)[1..] == Without(pairs[1..], key);
    } else {
      ValuesOfSet(pairs[1..], key, value, name);
      assert Set(pairs, key, value)[1..] == Set(pairs[1..], key, value);
    }
  }

  lemma {:induction false} ValuesOfForwardAll(pairs: seq<Pair>, incoming: seq<Pair>, name: JsString)
    requires name != UNLOCK_KEY
    ensures Values(ForwardAll(pairs, incoming), name) == Effect(pairs, incoming, name)
  {
    if incoming != [] {
      var n := |incoming| - 1;
      ValuesOfForwardAll(pairs, incoming[..n], name);
      NamesSnoc(incoming);
      ValuesOfSet(ForwardAll(pairs, incoming[..n]), incoming[n].name, incoming[n].value, name);
    }
  }

  lemma {:induction false} NoValuesNoName(pairs: seq<Pair>, name: JsString)
    ensures Values(pairs, name) == [] ==> Without(pairs, name) == pairs
  {
    if pairs != [] {
      NoValuesNoName(pairs[1..], name);
      assert pairs == [pairs[0]] + pairs[1..];
    }
  }

  /** Setting the one value a name has changes nothing. */
  lemma {:induction false} SetTheSame(pairs: seq<Pair>, name: JsString, value: JsString)
    requires Values(pairs, name) == [value]
    ensures Set(pairs, name, value) == pairs
  {
    assert pairs == [pairs[0]] + pairs[1..];
    if pairs[0].name == name {
      var rest := Values(pairs[1..], name);
      assert [pairs[0].value] + rest == [value];
      assert ([pairs[0].value] + rest)[0] == pairs[0].value && rest == [];
      NoValuesNoName(pairs[1..], name);
    } else {
      SetTheSame(pairs[1..], name, value);
    }
  }

  /** Names taken once each: setting those that already have their value, and at most one
      that does not, is setting that one. */
  lemma {:induction false} OneChanges(pairs: seq<Pair>, once: seq<Pair>, p: Pair)
    requires DistinctNames(once) && p.name != UNLOCK_KEY
    requires forall i :: 0 <= i < |once| && once[i].name != UNLOCK_KEY && once[i].name != p.name ==>
      Values(pairs, once[i].name) == [once[i].value]
    requires forall i :: 0 <= i < |once| && once[i].name == p.name ==> once[i].value == p.value
    ensures ForwardAll(pairs, once) == if p.name in Names(once) then Set(pairs, p.name, p.value) else pairs
  {
    if once != [] {
      var n := |once| - 1;
      OneChanges(pairs, once[..n], p);
      NamesSnoc(once);
      if once[n].name == p.name {
        NotEarlier(once);
      } else if once[n].name != UNLOCK_KEY {
        ValuesOfSet(pairs, p.name, p.value, once[n].name);
        SetTheSame(ForwardAll(pairs, once[..n]), once[n].name, once[n].value);
      }
    }
  }

  lemma NotEarlier(once: seq<Pair>)
    requires once != [] && DistinctNames(once)
    ensures once[|once| - 1].name !in Names(once[..|once| - 1])
  {
  }

  predicate KeepsLast(g: Group, raw: seq<Pair>) {
    g.name in Names(raw) && g.values != [] && g.values[|g.values| - 1] == LastOf(raw, g.name)
  }

  lemma LastOfSnoc(raw: seq<Pair>, name: JsString)
    requires raw != []
    ensures var p := raw[|raw| - 1];
      if name == p.name then name in Names(raw) && LastOf(raw, name) == p.value
      else name in Names(raw[..|raw| - 1]) ==> name in Names(raw) && LastOf(raw, name) == LastOf(raw[..|raw| - 1], name)
  {
    NamesSnoc(raw);
  }

  lemma {:induction false} GroupsKeepLast(raw: seq<Pair>)
    ensures forall i :: 0 <= i < |Grouped(raw)| ==> KeepsLast(Grouped(raw)[i], raw)
  {
    if raw != [] {
      var n, p := |raw| - 1, raw[|raw| - 1];
      var gs, after := Grouped(raw[..n]), Grouped(raw);
      var at := Position(gs, p.name);
      GroupsKeepLast(raw[..n]);
      GroupedDistinct(raw);
      GroupsStep(raw);
      hide Grouped, LastOf, Names;
      forall i | 0 <= i < |after|
        ensures KeepsLast(after[i], raw)
      {
        LastOfSnoc(raw, after[i].name);
      }
    }
  }

  /** The last pair joins its group, or makes one; the others stay. */
  predicate Joined(gs: seq<Group>, p: Pair, after: seq<Group>) {
    forall i :: 0 <= i < |after| ==>
      && after[i].values != []
      && if after[i].name == p.name then after[i].values[|after[i].values| - 1] == p.value
         else i < |gs| && after[i] == gs[i]
  }

  lemma GroupsStep(raw: seq<Pair>)
    requires raw != []
    ensures Joined(Grouped(raw[..|raw| - 1]), raw[|raw| - 1], Grouped(raw))
  {
    hide Joined;
    var gs, p := Grouped(raw[..|raw| - 1]), raw[|raw| - 1];
    GroupedDistinct(raw[..|raw| - 1]);
    var at := Position(gs, p.name);
    if at < |gs| {
      JoinsItsGroup(gs, p, at);
    } else {
      MakesAGroup(gs, p);
    }
  }

  lemma JoinsItsGroup(gs: seq<Group>, p: Pair, at: nat)
    requires DistinctGroups(gs) && at < |gs| && gs[at].name == p.name
    requires forall i :: 0 <= i < |gs| ==> gs[i].values != []
    ensures Joined(gs, p, gs[at := Group(p.name, gs[at].values + [p.value])])
  {
    assert forall i :: 0 <= i < |gs| && i != at ==> gs[i].name != gs[at].name;
  }

  lemma MakesAGroup(gs: seq<Group>, p: Pair)
    requires forall i :: 0 <= i < |gs| ==> gs[i].name != p.name && gs[i].values != []
    ensures Joined(gs, p, gs + [Group(p.name, [p.value])])
  {
  }

  /** The raw names once each, with their last values. */
  lemma OnceEach(raw: seq<Pair>) returns (once: seq<Pair>)
    ensures DistinctNames(once) && Names(once) == Names(raw)
    ensures forall i :: 0 <= i < |once| ==> once[i].name in Names(raw) && once[i].value == LastOf(raw, once[i].name)
    ensures forall pairs :: ForwardAll(pairs, once) == ForwardAll(pairs, raw)
  {
    once := Collapsed(Grouped(raw));
    GroupedDistinct(raw);
    GroupedNames(raw);
    GroupsKeepLast(raw);
    forall i | 0 <= i < |once|
      ensures once[i].name in Names(raw) && once[i].value == LastOf(raw, once[i].name)
    {
      assert KeepsLast(Grouped(raw)[i], raw);
    }
    forall name | name in Names(raw)
      ensures name in Names(once)
    {
      var g :| g in Grouped(raw) && g.name == name;
      var i :| 0 <= i < |Grouped(raw)| && Grouped(raw)[i] == g;
      assert once[i].name == name;
    }
    forall pairs: seq<Pair>
      ensures ForwardAll(pairs, once) == ForwardAll(pairs, raw)
    {
      MergingOnceIsMergingAll(pairs, raw);
    }
  }

  /** Both queries leave the same under every name but the unlock token. */
  predicate SameEffects(pairs: seq<Pair>, a: seq<Pair>, b: seq<Pair>) {
    forall name :: name in Names(a) + Names(b) && name != UNLOCK_KEY ==> Effect(pairs, a, name) == Effect(pairs, b, name)
  }

  /** Against a query of at most one pair. */
  lemma SameEffectsMergeAlike(pairs: seq<Pair>, x: seq<Pair>, y: seq<Pair>)
    requires |y| <= 1
    ensures SameEffects(pairs, x, y) <==> ForwardAll(pairs, x) == ForwardAll(pairs, y)
  {
    if ForwardAll(pairs, x) == ForwardAll(pairs, y) {
      forall name | name in Names(x) + Names(y) && name != UNLOCK_KEY
        ensures Effect(pairs, x, name) == Effect(pairs, y, name)
      {
        ValuesOfForwardAll(pairs, x, name);
        ValuesOfForwardAll(pairs, y, name);
      }
    }
    if SameEffects(pairs, x, y) {
      var once := OnceEach(x);
      if y == [] || y[0].name == UNLOCK_KEY {
        NothingChanges(pairs, x, y, once);
      } else {
        OnlyThatChanges(pairs, x, y, once);
      }
    }
  }

  /** A name that only the one has is there already, with just its last value. */
  lemma ThereAlready(pairs: seq<Pair>, x: seq<Pair>, y: seq<Pair>, name: JsString)
    requires SameEffects(pairs, x, y) && name in Names(x) && name !in Names(y) && name != UNLOCK_KEY
    ensures Values(pairs, name) == [LastOf(x, name)]
  {
    hide Values, LastOf, Names;
    assert name in Names(x) + Names(y);
    assert Effect(pairs, x, name) == Effect(pairs, y, name);
  }

  lemma NothingChanges(pairs: seq<Pair>, x: seq<Pair>, y: seq<Pair>, once: seq<Pair>)
    requires SameEffects(pairs, x, y) && Names(y) <= {UNLOCK_KEY}
    requires DistinctNames(once) && Names(once) == Names(x) && ForwardAll(pairs, once) == ForwardAll(pairs, x)
    requires forall i :: 0 <= i < |once| ==> once[i].name in Names(x) && once[i].value == LastOf(x, once[i].name)
    ensures ForwardAll(pairs, x) == ForwardAll(pairs, y)
  {
    hide ForwardAll, SameEffects, Values, LastOf, Set;
    TokensMergeNothing(pairs, y);
    forall i | 0 <= i < |once| && once[i].name != UNLOCK_KEY
      ensures Values(pairs, once[i].name) == [once[i].value]
    {
      ThereAlready(pairs, x, y, once[i].name);
    }
    if i: nat :| i < |once| && once[i].name != UNLOCK_KEY {
      OneChanges(pairs, once, once[i]);
      SetTheSame(pairs, once[i].name, once[i].value);
    } else {
      TokensMergeNothing(pairs, once);
    }
  }

  lemma OnlyThatChanges(pairs: seq<Pair>, x: seq<Pair>, y: seq<Pair>, once: seq<Pair>)
    requires SameEffects(pairs, x, y) && |y| == 1 && y[0].name != UNLOCK_KEY
    requires DistinctNames(once) && Names(once) == Names(x) && ForwardAll(pairs, once) == ForwardAll(pairs, x)
    requires forall i :: 0 <= i < |once| ==> once[i].name in Names(x) && once[i].value == LastOf(x, once[i].name)
    ensures ForwardAll(pairs, x) == ForwardAll(pairs, y)
  {
    hide ForwardAll, SameEffects, Values, LastOf, Set, Names, DistinctNames;
    var p := y[0];
    OnePair(pairs, p);
    assert y == [p];
    SameUnder(pairs, x, p);
    forall i | 0 <= i < |once| && once[i].name != UNLOCK_KEY && once[i].name != p.name
      ensures Values(pairs, once[i].name) == [once[i].value]
    {
      ThereAlready(pairs, x, y, once[i].name);
    }
    OneChanges(pairs, once, p);
    if p.name !in Names(x) {
      SetTheSame(pairs, p.name, p.value);
    }
  }

  lemma OnePair(pairs: seq<Pair>, p: Pair)
    requires p.name != UNLOCK_KEY
    ensures ForwardAll(pairs, [p]) == Set(pairs, p.name, p.value)
    ensures Names([p]) == {p.name} && LastOf([p], p.name) == p.value
  {
    assert [p][..0] == [];
  }

  lemma SameUnder(pairs: seq<Pair>, x: seq<Pair>, p: Pair)
    requires SameEffects(pairs, x, [p]) && p.name != UNLOCK_KEY
    ensures if p.name in Names(x) then LastOf(x, p.name) == p.value else Values(pairs, p.name) == [p.value]
  {
    OnePair(pairs, p);
    hide Values, LastOf, Names;
    assert p.name in Names(x) + Names([p]);
    assert Effect(pairs, x, p.name) == Effect(pairs, [p], p.name);
  }

  lemma {:induction false} ForwardAllConcat(pairs: seq<Pair>, a: seq<Pair>, b: seq<Pair>)
    ensures ForwardAll(pairs, a + b) == ForwardAll(ForwardAll(pairs, a), b)
  {
    if b == [] {
      assert a + b == a;
    } else {
      var n := |b| - 1;
      assert (a + b)[..|a| + n] == a + b[..n];
      ForwardAllConcat(pairs, a, b[..n]);
    }
  }

  lemma {:induction false} LastOfConcat(a: seq<Pair>, b: seq<Pair>, name: JsString)
    requires name in Names(b)
    ensures name in Names(a + b) && LastOf(a + b, name) == LastOf(b, name)
  {
    var n := |b| - 1;
    assert (a + b)[..|a| + n] == a + b[..n];
    NamesSnoc(b);
    NamesSnoc(a + b);
    if b[n].name != name {
      LastOfConcat(a, b[..n], name);
    }
  }

  lemma {:induction false} LastOfFirst(a: seq<Pair>, b: seq<Pair>, name: JsString)
    requires name in Names(a) && name !in Names(b)
    ensures name in Names(a + b) && LastOf(a + b, name) == LastOf(a, name)
  {
    if b == [] {
      assert a + b == a;
    } else {
      var n := |b| - 1;
      assert (a + b)[..|a| + n] == a + b[..n];
      NamesSnoc(b);
      NamesSnoc(a + b);
      LastOfFirst(a, b[..n], name);
    }
  }

  /** The effect of a query is that of its second part on what its first leaves. */
  lemma EffectOfConcat(pairs: seq<Pair>, a: seq<Pair>, b: seq<Pair>, name: JsString)
    requires name != UNLOCK_KEY
    ensures Effect(pairs, a + b, name) == Effect(ForwardAll(pairs, a), b, name)
  {
    ValuesOfForwardAll(pairs, a, name);
    assert Names(a + b) == Names(a) + Names(b);
    if name in Names(b) {
      LastOfConcat(a, b, name);
    } else if name in Names(a) {
      LastOfFirst(a, b, name);
    }
  }

  /** Two queries with a common part and, in one of them, at most one pair more. */
  lemma CommonPartMergesAlike(pairs: seq<Pair>, a: seq<Pair>, x: seq<Pair>, y: seq<Pair>)
    requires |y| <= 1
    ensures SameEffects(pairs, a + x, a + y) <==> ForwardAll(pairs, a + x) == ForwardAll(pairs, a + y)
  {
    hide Effect, ForwardAll;
    ForwardAllConcat(pairs, a, x);
    ForwardAllConcat(pairs, a, y);
    SameEffectsMergeAlike(ForwardAll(pairs, a), x, y);
    assert Names(a + x) == Names(a) + Names(x) && Names(a + y) == Names(a) + Names(y);
    forall name: JsString | name != UNLOCK_KEY
      ensures Effect(pairs, a + x, name) == Effect(ForwardAll(pairs, a), x, name)
      ensures Effect(pairs, a + y, name) == Effect(ForwardAll(pairs, a), y, name)
      ensures name !in Names(x) + Names(y) ==> Effect(pairs, a + x, name) == Effect(pairs, a + y, name)
    {
      EffectOfConcat(pairs, a, x, name);
      EffectOfConcat(pairs, a, y, name);
      EffectElsewhere(ForwardAll(pairs, a), x, y, name);
    }
  }

  lemma EffectElsewhere(pairs: seq<Pair>, x: seq<Pair>, y: seq<Pair>, name: JsString)
    ensures name !in Names(x) + Names(y) ==> Effect(pairs, x, name) == Effect(pairs, y, name)
  {
  }

  /** A query and its cut share all pairs but those of the cut's last segment on. */
  lemma {:induction false} CutShares(query: seq<Byte>) returns (a: seq<Pair>, x: seq<Pair>, y: seq<Pair>)
    ensures Parse(query) == a + x && Parse(Cut(query)) == a + y && |y| <= 1
    decreases |query|
  {
    hide Parse, ParsePair;
    var i, q := IndexOf(query, AMPERSAND), IndexOf(query, QUESTION);
    if i < q {
      var head, tail := query[..i], query[i + 1..];
      assert query == head + [AMPERSAND] + tail;
      CutAfter(query, i);
      var b;
      b, x, y := CutShares(tail);
      ParseStep(head, tail);
      ParseStep(head, Cut(tail));
      a := Parse(head) + b;
    } else {
      a, x, y := [], Parse(query), Parse(Cut(query));
      assert AMPERSAND !in Cut(query) by {
        if i < |query| {
          assert Cut(query) == query[..i][..q];
        }
      }
      ParseStep(Cut(query), []);
    }
  }

  lemma {:induction false} IndexInRest(head: seq<Byte>, rest: seq<Byte>, b: Byte)
    requires b !in head
    ensures IndexOf(head + rest, b) == |head| + IndexOf(rest, b)
  {
    if head == [] {
      assert head + rest == rest;
    } else {
      assert (head + rest)[1..] == head[1..] + rest;
      IndexInRest(head[1..], rest, b);
    }
  }

  lemma CutAfter(query: seq<Byte>, i: nat)
    requires i < IndexOf(query, QUESTION)
    ensures Cut(query) == query[..i] + [query[i]] + Cut(query[i + 1..])
  {
    hide IndexOf;
    var head, tail := query[..i + 1], query[i + 1..];
    NotInPrefix(query, i);
    IndexInRest(head, tail, QUESTION);
    PrefixOfConcat(head, tail, IndexOf(tail, QUESTION));
    assert query == head + tail;
    assert head == query[..i] + [query[i]];
  }

  lemma NotInPrefix(query: seq<Byte>, i: nat)
    requires i < IndexOf(query, QUESTION)
    ensures QUESTION !in query[..i + 1]
  {
    hide IndexOf;
    assert query[..i + 1] == query[..IndexOf(query, QUESTION)][..i + 1];
  }

  lemma PrefixOfConcat<T>(a: seq<T>, b: seq<T>, n: nat)
    requires n <= |b|
    ensures (a + b)[..|a| + n] == a + b[..n]
  {
  }

  /** The edge merges the raw query into a destination it can decompose. */
  predicate Merges(url: Option<UrlParts>, forwardQuery: bool, query: seq<Byte>) {
    forwardQuery && url.Some? && Parse(query) != []
  }

  /** The cut makes no difference: under every name but the unlock token the query and its
      part before the first question mark have the same last value, or one of them does not
      have the name and the destination has it with just the other's; and where that part
      sets nothing, so that the service leaves the destination's query as it is, that query
      is written as the serializer would write it. */
  predicate CutIsHarmless(u: UrlParts, query: seq<Byte>) {
    ParseIsWellFormed(u.Query());
    var params, cut := Parse(u.Query()), Parse(Cut(query));
    && SameEffects(params, Parse(query), cut)
    && (Names(cut) <= {UNLOCK_KEY} ==> u.search == Some(Serialize(params)))
  }

  lemma CutMergesAlike(params: seq<Pair>, query: seq<Byte>)
    ensures SameEffects(params, Parse(query), Parse(Cut(query)))
      <==> ForwardAll(params, Parse(query)) == ForwardAll(params, Parse(Cut(query)))
  {
    hide Parse, SameEffects, ForwardAll, Cut;
    var a, x, y := CutShares(query);
    CommonPartMergesAlike(params, a, x, y);
  }

  lemma SameTail(base: JsString, a: JsString, b: JsString, hash: JsString)
    ensures base + a + hash == base + b + hash <==> a == b
  {
    if base + a + hash == base + b + hash {
      assert (base + a + hash)[|base|..|base| + |a|] == a;
      assert (base + b + hash)[|base|..|base| + |b|] == b;
    }
  }

  /** A merged answer is the service's exactly when the cut is harmless. */
  lemma MergedAgreesIffCutIsHarmless(u: UrlParts, query: seq<Byte>)
    requires Parse(query) != [] && UNLOCK_KEY !in Names(Parse(query))
    ensures var params := Parse(u.Query());
      && WellFormedPairs(ForwardAll(params, Parse(query)))
      && (CutIsHarmless(u, query) <==>
            Rebuilt(u.base, ForwardAll(params, Parse(query)), u.hash) == Location(ServiceUrl([], Some(u), true, query)))
  {
    hide Parse, Serialize, ForwardAll, Names, WellFormedPairs, SameEffects;
    var params, raw, cut := Parse(u.Query()), Parse(query), Parse(Cut(query));
    ParseIsWellFormed(u.Query());
    ParseIsWellFormed(query);
    ParseIsWellFormed(Cut(query));
    var all, part := ForwardAll(params, raw), ForwardAll(params, cut);
    ForwardAllWellFormed(params, raw);
    ForwardAllWellFormed(params, cut);
    CutMergesAlike(params, query);
    MergedIsNotEmpty(params, raw);
    SerializeEmpty(all);
    var text: JsString := Serialize(all);
    if Names(cut) <= {UNLOCK_KEY} {
      TokensMergeNothing(params, cut);
      SameTail(u.base, [QUESTION] + text, if u.search.Some? then [QUESTION] + u.search.value else [], u.hash);
      VerbatimQuery(u, all);
    } else {
      MergedIsNotEmpty(params, cut);
      SerializeEmpty(part);
      var other: JsString := Serialize(part);
      SameTail(u.base, [QUESTION] + text, [QUESTION] + other, u.hash);
      assert ([QUESTION] + text)[1..] == text && ([QUESTION] + other)[1..] == other;
      SerializeInjective(all, part);
    }
  }

  /** The destination's query is verbatim the serialization of these pairs exactly when
      it parses to them and is written canonically. */
  lemma VerbatimQuery(u: UrlParts, pairs: seq<Pair>)
    requires WellFormedPairs(pairs)
    ensures WellFormedPairs(Parse(u.Query()))
    ensures (if u.search.Some? then [QUESTION] + u.search.value else []) == [QUESTION] + Serialize(pairs)
      <==> pairs == Parse(u.Query()) && u.search == Some(Serialize(Parse(u.Query())))
  {
    hide Parse, Serialize, WellFormedPairs;
    ParseIsWellFormed(u.Query());
    ParseRecoversPairs(pairs);
    assert ([QUESTION] + Serialize(pairs))[1..] == Serialize(pairs);
    if u.search.Some? {
      assert ([QUESTION] + u.search.value)[1..] == u.search.value;
    }
  }

  lemma MergedIsNotEmpty(params: seq<Pair>, incoming: seq<Pair>)
    requires !(Names(incoming) <= {UNLOCK_KEY}) || (incoming != [] && UNLOCK_KEY !in Names(incoming))
    ensures ForwardAll(params, incoming) != []
  {
    hide ForwardAll;
    NamesEmpty(incoming);
    ForwardAllNames(params, incoming);
    var name :| name in Names(incoming) && name != UNLOCK_KEY;
    assert name in Names(ForwardAll(params, incoming));
  }

  /** When nothing is merged both answer the destination as it is. */
  lemma ServiceLeavesItAlone(destination: JsString, url: Option<UrlParts>, forwardQuery: bool, query: seq<Byte>)
    requires !Merges(url, forwardQuery, query)
    ensures ServiceUrl(destination, url, forwardQuery, query) == StoredValue(destination, url, forwardQuery).destination
  {
    hide Parse, Serialize, ForwardAll, Names, WellFormedPairs, Cut;
    if url.Some? && forwardQuery {
      NoPairsNoQuestion(query);
      CutWhole(query);
      NamesEmpty([]);
    }
  }

  /** The theorem: the edge leaves the request to the Lambda for exactly these reasons:
      an unlock token, no destination, or a non-empty forwarded query that has an
      index-like name or no decomposed destination to merge into. Otherwise its answer is
      the Lambda's own URL if and only if it merged nothing or the Lambda's cut of the
      query is harmless. */
  lemma EdgeAgreesWithLambda(destination: JsString, url: Option<UrlParts>, forwardQuery: bool, query: seq<Byte>)
    ensures var stored := StoredValue(destination, url, forwardQuery);
      var raw := Parse(query);
      var answer := Answer(stored, raw);
      && !answer.Threw?
      && (answer.FallThrough? <==>
            || UNLOCK_KEY in Names(raw)
            || stored.destination == []
            || (forwardQuery && raw != [] && (url.None? || HasIndexLike(raw))))
      && (answer.Location? ==>
            (!Merges(url, forwardQuery, query) || CutIsHarmless(url.value, query) <==>
              answer.url == ServiceUrl(destination, url, forwardQuery, query)))
  {
    hide Parse, Serialize, ForwardAll, HasIndexLike, Names, EdgeOutcomeFor, WellFormedPairs, Cut, CutIsHarmless,
      BuildDestination, EventQuerystring;
    var raw := Parse(query);
    OutcomeOfEvent(StoredValue(destination, url, forwardQuery), raw);
    NoIndexLikeInEmpty();
    if !Merges(url, forwardQuery, query) {
      ServiceLeavesItAlone(destination, url, forwardQuery, query);
    } else if UNLOCK_KEY !in Names(raw) {
      MergedAgreesIffCutIsHarmless(url.value, query);
      DestinationUnused(destination, url.value, query);
    }
  }

  lemma DestinationUnused(destination: JsString, u: UrlParts, query: seq<Byte>)
    ensures ServiceUrl(destination, Some(u), true, query) == ServiceUrl([], Some(u), true, query)
  {
  }

  /** A query without a question mark of its own is answered alike by both. */
  lemma PlainQueriesAgree(destination: JsString, url: Option<UrlParts>, forwardQuery: bool, query: seq<Byte>)
    requires QUESTION !in query
    ensures var answer := Answer(StoredValue(destination, url, forwardQuery), Parse(query));
      answer.Location? ==> answer.url == ServiceUrl(destination, url, forwardQuery, query)
  {
    hide Parse, Serialize, ForwardAll, HasIndexLike, Names, EdgeOutcomeFor, WellFormedPairs;
    EdgeAgreesWithLambda(destination, url, forwardQuery, query);
    CutWhole(query);
    var raw := Parse(query);
    NamesEmpty(raw);
    OutcomeOfEvent(StoredValue(destination, url, forwardQuery), raw);
  }

  /** ?a=1?b on a link that forwards the query to a destination without one: the edge
      sends a=1%3Fb, the service a=1. */
  lemma SecondQuestionMarkIsCut(u: UrlParts)
    requires u.search.None? && u.Href() != []
    ensures var query: seq<Byte> := ['a' as Byte, '=' as Byte, '1' as Byte, '?' as Byte, 'b' as Byte];
      var answer := Answer(StoredValue([], Some(u), true), Parse(query));
      answer.Location? && answer.url != ServiceUrl([], Some(u), true, query)
  {
    hide Parse, Serialize, ForwardAll, HasIndexLike, EdgeOutcomeFor, WellFormedPairs, Cut;
    var query: seq<Byte> := [0x61, EQUALS, 0x31, QUESTION, 0x62];
    var whole, part := Pair([0x61], [0x31, QUESTION, 0x62]), Pair([0x61], [0x31]);
    ParsesOfTheExample(query);
    assert Parse(query) == [whole] && Parse(Cut(query)) == [part] && Parse([]) == [];
    assert Names([whole]) == {[0x61]} && Names([part]) == {[0x61]};
    assert [0x61][0] != UNLOCK_KEY[0];
    OneForwarded(whole);
    OneForwarded(part);
    assert whole.value[1] == QUESTION && |part.value| == 1;
    assert Effect([], [whole], [0x61]) == [whole.value] && Effect([], [part], [0x61]) == [part.value];
    assert [0x61] in Names([whole]) + Names([part]);
    assert !SameEffects([], [whole], [part]);
    assert !CutIsHarmless(u, query);
    OneIndexLike(whole);
    EdgeAgreesWithLambda([], Some(u), true, query);
  }

  lemma OneIndexLike(p: Pair)
    requires p.name == [0x61]
    ensures !HasIndexLike([p])
  {
    assert p.name[0] == 0x61 && 0x61 in p.name && p.name != [0x30];
    assert !IsIndexLike(p.name);
  }

  lemma OneForwarded(p: Pair)
    requires p.name != UNLOCK_KEY
    ensures ForwardAll([], [p]) == [p]
  {
    ForwardAllSnoc([], [], p);
    assert [] + [p] == [p];
    assert ForwardAll([], []) == [];
  }

  lemma ParsesOfTheExample(query: seq<Byte>)
    requires query == [0x61, EQUALS, 0x31, QUESTION, 0x62]
    ensures Parse(query) == [Pair([0x61], [0x31, QUESTION, 0x62])]
    ensures Parse(Cut(query)) == [Pair([0x61], [0x31])] && Parse([]) == []
  {
    hide Parse, ParsePair, FormDecode;
    PlainPair([0x61], [0x31, QUESTION, 0x62]);
    PlainPair([0x61], [0x31]);
    assert query == [0x61] + [EQUALS] + [0x31, QUESTION, 0x62];
    assert query[..3] == [0x61] + [EQUALS] + [0x31];
    assert query[3] == QUESTION && QUESTION !in query[..3];
    assert IndexOf(query, QUESTION) == 3;
    ParseStep([], []);
  }

  /** Bytes that stand for themselves in a query. */
  predicate PlainBytes(bs: seq<Byte>) {
    forall i :: 0 <= i < |bs| ==> bs[i] < 0x80 && bs[i] !in [PERCENT, PLUS, AMPERSAND, EQUALS]
  }

  lemma PlainPair(name: seq<Byte>, value: seq<Byte>)
    requires PlainBytes(name) && PlainBytes(value)
    ensures Parse(name + [EQUALS] + value) == [Pair(name, value)]
  {
    hide Parse, FormDecode;
    var s := name + [EQUALS] + value;
    IndexAfter(name, EQUALS, value);
    assert s[..|name|] == name && s[|name| + 1..] == value;
    PlainDecodes(name);
    PlainDecodes(value);
    ParseStep(s, []);
  }

  lemma PlainDecodes(bs: seq<Byte>)
    requires PlainBytes(bs)
    ensures FormDecode(bs) == bs
  {
    PlainBytesStay(bs);
    AsciiStays(bs);
  }

  lemma {:induction false} PlainBytesStay(bs: seq<Byte>)
    requires PlainBytes(bs)
    ensures PlusToSpace(bs) == bs && PercentDecode(bs) == bs
  {
    if bs != [] {
      assert bs == [bs[0]] + bs[1..];
      PlainBytesStay(bs[1..]);
    }
  }

  lemma {:induction false} AsciiStays(bs: seq<Byte>)
    requires forall i :: 0 <= i < |bs| ==> bs[i] < 0x80
    ensures Utf8Decode(bs) == bs && FromScalars(bs) == bs
  {
    if bs != [] {
      AsciiStays(bs[1..]);
      DecodeScalar(bs[0], bs[1..]);
      assert bs == [bs[0]] + bs[1..];
    }
  }
}
