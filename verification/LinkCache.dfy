/** The redirect's hot-link cache in front of the database: any number of requests,
    each a cache read, an inner read and a cache write, interleaved with edits,
    busts, early evictions and the clock. A cache read may be one of a store that asks for
    no consistency, and then returns whatever was ever stored and has not expired. */
module LinkCache {
  import opened Options
  import opened Text

  /* Keys. */

  /** A normalised (host, slug) pair, as the database looks links up. */
  datatype Address = Address(host: string, slug: string)

  function Normalised(host: string, slug: string): Address {
    Address(Trim(Lower(host)), Lower(slug))
  }

  function KeyOf(a: Address): string {
    "link:" + a.host + "|" + a.slug
  }

  function LinkCacheKey(host: string, slug: string): string {
    KeyOf(Normalised(host, slug))
  }

  /** Links live on DNS names, which hold no bar; an imported slug may hold anything. */
  predicate PlainHost(a: Address) {
    '|' !in a.host
  }

  /** Two requests name one address if and only if their hosts, less the white space at
      their ends, and their slugs differ in the case of A to Z alone; and then they share a
      key, which holds no capital of A to Z. */
  lemma SpellingsShareKey(h1: string, core1: string, s1: string, h2: string, core2: string, s2: string)
    requires TrimsTo(h1, core1) && TrimsTo(h2, core2)
    ensures Normalised(h1, s1) == Normalised(h2, s2) <==> SameButCase(core1, core2) && SameButCase(s1, s2)
    ensures SameButCase(core1, core2) && SameButCase(s1, s2) ==> LinkCacheKey(h1, s1) == LinkCacheKey(h2, s2)
    ensures forall c <- LinkCacheKey(h1, s1) :: !('A' <= c <= 'Z')
  {
    hide Trim, Lower, TrimsTo, SameButCase;
    TrimIsTheRest(h1, core1);
    TrimIsTheRest(h2, core2);
    TrimOfLower(h1);
    TrimOfLower(h2);
    LowerIffSameButCase(core1, core2);
    LowerIffSameButCase(s1, s2);
    LowerHasNoCapital(core1);
    LowerHasNoCapital(s1);
  }

  /** Slugs without a bar: two requests share a key exactly when they name the same
      link, whatever their hosts contain. */
  lemma KeysNameLinks(h1: string, core1: string, s1: string, h2: string, core2: string, s2: string)
    requires TrimsTo(h1, core1) && TrimsTo(h2, core2)
    requires '|' !in s1 && '|' !in s2
    ensures LinkCacheKey(h1, s1) == LinkCacheKey(h2, s2) <==> SameButCase(core1, core2) && SameButCase(s1, s2)
  {
    hide Trim, Lower, TrimsTo, SameButCase;
    var a, b := Normalised(h1, s1), Normalised(h2, s2);
    SpellingsShareKey(h1, core1, s1, h2, core2, s2);
    LowerAddsNoBar(s1);
    LowerAddsNoBar(s2);
    if KeyOf(a) == KeyOf(b) {
      assert KeyOf(a)[5..] == a.host + "|" + a.slug;
      assert KeyOf(b)[5..] == b.host + "|" + b.slug;
      SplitAtLastBar(a.host, a.slug, b.host, b.slug);
    }
  }

  /** A printed spelling and a header's, and their key. */
  lemma PrintedSpelling()
    ensures LinkCacheKey("SNAP.TO", "Foo") == LinkCacheKey(" snap.to", "foo") == "link:snap.to|foo"
  {
    hide Trim, TrimsTo, SameButCase, Lower, LinkCacheKey;
    TrimmedHost();
    SpellingsShareKey("SNAP.TO", "SNAP.TO", "Foo", " snap.to", "snap.to", "foo");
    KeyInLowerCase();
  }

  lemma TrimmedHost()
    ensures TrimsTo("SNAP.TO", "SNAP.TO") && TrimsTo(" snap.to", "snap.to")
    ensures SameButCase("SNAP.TO", "snap.to") && SameButCase("Foo", "foo")
  {
    var host := "snap.to";
    assert Cuts("SNAP.TO", "SNAP.TO", 0, 7) && Cuts(" snap.to", host, 1, 8);
  }

  lemma KeyInLowerCase()
    ensures LinkCacheKey(" snap.to", "foo") == "link:snap.to|foo"
  {
    hide TrimsTo, Trim, Lower, KeyOf;
    TrimmedHost();
    LowerWithoutCapitals(" snap.to");
    LowerWithoutCapitals("foo");
    TrimIsTheRest(" snap.to", "snap.to");
    KeyText();
  }

  lemma KeyText()
    ensures KeyOf(Address("snap.to", "foo")) == "link:snap.to|foo"
  {
  }

  /** The bar in a slug is what breaks it. */
  lemma BarsCollide()
    ensures LinkCacheKey("a", "b|c") == LinkCacheKey("a|b", "c")
    ensures Normalised("a", "b|c") != Normalised("a|b", "c")
  {
    assert Lower("a") == "a" && Lower("b|c") == "b|c" && Lower("a|b") == "a|b" && Lower("c") == "c";
    assert Trim("a") == "a" && Trim("a|b") == "a|b";
  }

  /** Where a request's host stops when its key is read as a link's: at its first bar. */
  function HostPart(host: string): string {
    if host == "" || host[0] == '|' then "" else [host[0]] + HostPart(host[1..])
  }

  lemma {:induction false} HostPartSplits(host: string)
    ensures '|' !in HostPart(host) && |HostPart(host)| <= |host| && HostPart(host) == host[..|HostPart(host)|]
    ensures '|' in host <==> |HostPart(host)| < |host|
    ensures '|' in host ==> host[|HostPart(host)|] == '|'
  {
    if host != "" && host[0] != '|' {
      HostPartSplits(host[1..]);
      assert host == [host[0]] + host[1..];
    }
  }

  /** The link's address that a key spells. */
  function Spelled(a: Address): Address {
    var h := HostPart(a.host);
    HostPartSplits(a.host);
    if '|' in a.host then Address(h, a.host[|h| + 1..] + "|" + a.slug) else a
  }

  lemma SpelledSharesKey(a: Address)
    ensures PlainHost(Spelled(a)) && KeyOf(Spelled(a)) == KeyOf(a)
  {
    HostPartSplits(a.host);
    var h := HostPart(a.host);
    if '|' in a.host {
      assert a.host == h + ("|" + a.host[|h| + 1..]);
    }
  }

  /** A link shares its key with exactly the requests that spell its address. */
  lemma KeySpellsAddress(link: Address, asked: Address)
    requires PlainHost(link)
    ensures KeyOf(link) == KeyOf(asked) <==> link == Spelled(asked)
  {
    SpelledSharesKey(asked);
    if KeyOf(link) == KeyOf(asked) {
      var own := Spelled(asked);
      assert KeyOf(link)[5..] == link.host + "|" + link.slug;
      assert KeyOf(own)[5..] == own.host + "|" + own.slug;
      SplitAtFirst('|', link.host, link.slug, own.host, own.slug);
    }
  }

  /** A request whose key spells the address of another link that a request can name: its
      host holds a bar, and what stands before the first one needs no trimming. */
  predicate Ambiguous(a: Address) {
    '|' in a.host && Trim(HostPart(a.host)) == HostPart(a.host)
  }

  /** What normalising an address leaves alone. */
  predicate Normal(a: Address) {
    Trim(a.host) == a.host && Lower(a.host) == a.host && Lower(a.slug) == a.slug
  }

  lemma NormalisedIsNormal(host: string, slug: string)
    ensures Normal(Normalised(host, slug))
  {
    TrimTwice(Lower(host));
    LowerTwice(host);
    LowerTwice(slug);
    TrimOfLower(Lower(host));
  }

  lemma LowerSpelling(rest: string, slug: string)
    requires Lower(rest) == rest && Lower(slug) == slug
    ensures Lower(rest + "|" + slug) == rest + "|" + slug
  {
    var bar := "|";
    assert Lower(bar)[0] == LowerChar('|');
    assert Lower(bar) == bar;
    LowerJoin(rest, bar);
    LowerJoin(rest + bar, slug);
  }

  lemma NormalSpelling(a: Address)
    requires Normal(a)
    ensures Normal(Spelled(a)) <==> a == Spelled(a) || Ambiguous(a)
    ensures '|' in a.host <==> a != Spelled(a)
  {
    hide Trim, Lower;
    HostPartSplits(a.host);
    if '|' in a.host {
      var h := HostPart(a.host);
      LowerPart(a.host, 0, |h|);
      LowerPart(a.host, |h| + 1, |a.host|);
      assert a.host[0..|h|] == h && a.host[|h| + 1..|a.host|] == a.host[|h| + 1..];
      LowerSpelling(a.host[|h| + 1..], a.slug);
    }
  }

  /* The origin. */

  datatype Link = Link(destination: string, expiresAt: Option<int>, activatesAt: Option<int>)

  /** A change to what an address resolves to, and when it committed. */
  datatype Write = Write(at: int, address: Address, value: Option<Link>)

  /** What the inner resolver answers once the first n writes have committed. */
  function OriginAt(writes: seq<Write>, n: nat, a: Address): Option<Link>
    requires n <= |writes|
  {
    if n == 0 then None
    else if writes[n - 1].address == a then writes[n - 1].value
    else OriginAt(writes, n - 1, a)
  }

  lemma {:induction false} OriginKeepsPast(writes: seq<Write>, w: Write, n: nat, a: Address)
    requires n <= |writes|
    ensures OriginAt(writes + [w], n, a) == OriginAt(writes, n, a)
  {
    if n > 0 {
      OriginKeepsPast(writes, w, n - 1, a);
    }
  }

  /** Every link is stored on a DNS name. */
  predicate PlainHosts(writes: seq<Write>) {
    forall i :: 0 <= i < |writes| && writes[i].value.Some? ==> PlainHost(writes[i].address)
  }

  lemma {:induction false} FoundIsPlain(writes: seq<Write>, n: nat, a: Address)
    requires PlainHosts(writes) && n <= |writes| && OriginAt(writes, n, a).Some?
    ensures PlainHost(a)
  {
    if writes[n - 1].address != a {
      FoundIsPlain(writes, n - 1, a);
    }
  }

  /* The machine. */

  /** An inner read: how many writes it saw, and when it happened. */
  datatype Seen = Seen(count: nat, at: int)

  datatype Entry = Entry(link: Link, address: Address, seen: Seen, setAt: int)

  /** `source` is the address the answer was read for; `setAt` is when it was stored, or, for
      an answer that was not, when it was given. */
  datatype Phase =
    | Asked
    | Missed
    | Fetched(link: Link, seen: Seen)
    | Served(answer: Option<Link>, seen: Seen, at: int, fromCache: bool, source: Address, setAt: int)

  datatype Request = Request(host: string, slug: string, phase: Phase) {
    function Address(): Address {
      Normalised(host, slug)
    }
  }

  /** `stored` holds everything ever written to the cache. */
  datatype State = State(
    now: int,
    writes: seq<Write>,
    cache: map<string, Entry>,
    stored: seq<Entry>,
    requests: map<nat, Request>)

  datatype Event =
    | Pass(ms: nat)
    | Ask(id: nat, host: string, slug: string)
    | Lookup(id: nat)
    /** A read that returns the n-th entry ever stored. */
    | OldLookup(id: nat, n: nat)
    | Fetch(id: nat)
    | Store(id: nat)
    | Commit(address: Address, value: Option<Link>)
    | Bust(host: string, slug: string)
    | Evict(key: string)

  function To(s: State, id: nat, phase: Phase): State
    requires id in s.requests
  {
    s.(requests := s.requests[id := s.requests[id].(phase := phase)])
  }

  function LookedUp(s: State, ttlMs: int, id: nat): State {
    if id !in s.requests || !s.requests[id].phase.Asked? then s
    else
      var key := KeyOf(s.requests[id].Address());
      if key in s.cache && s.now < s.cache[key].setAt + ttlMs then
        To(s, id, Hit(s, s.cache[key]))
      else To(s, id, Missed)
  }

  function Hit(s: State, e: Entry): Phase {
    Served(Some(e.link), e.seen, s.now, true, e.address, e.setAt)
  }

  function LookedUpOld(s: State, ttlMs: int, id: nat, n: nat): State {
    if id !in s.requests || !s.requests[id].phase.Asked? || n >= |s.stored|
       || KeyOf(s.stored[n].address) != KeyOf(s.requests[id].Address()) || s.now >= s.stored[n].setAt + ttlMs then s
    else To(s, id, Hit(s, s.stored[n]))
  }

  /** A miss at the origin is answered and never stored. */
  function HasFetched(s: State, id: nat): State {
    if id !in s.requests || !s.requests[id].phase.Missed? then s
    else
      var seen := Seen(|s.writes|, s.now);
      match OriginAt(s.writes, |s.writes|, s.requests[id].Address())
      case None => To(s, id, Served(None, seen, s.now, false, s.requests[id].Address(), s.now))
      case Some(link) => To(s, id, Fetched(link, seen))
  }

  function HasStored(s: State, id: nat): State {
    if id !in s.requests || !s.requests[id].phase.Fetched? then s
    else
      var r := s.requests[id];
      var e := Entry(r.phase.link, r.Address(), r.phase.seen, s.now);
      To(s, id, Served(Some(r.phase.link), r.phase.seen, s.now, false, r.Address(), s.now)).(
        cache := s.cache[KeyOf(r.Address()) := e],
        stored := s.stored + [e])
  }

  function Step(s: State, ttlMs: int, e: Event): State {
    match e
    case Pass(ms) => s.(now := s.now + ms)
    case Ask(id, host, slug) =>
      if id in s.requests then s else s.(requests := s.requests[id := Request(host, slug, Asked)])
    case Lookup(id) => LookedUp(s, ttlMs, id)
    case OldLookup(id, n) => LookedUpOld(s, ttlMs, id, n)
    case Fetch(id) => HasFetched(s, id)
    case Store(id) => HasStored(s, id)
    case Commit(address, value) => s.(writes := s.writes + [Write(s.now, address, value)])
    case Bust(host, slug) => s.(cache := s.cache - {LinkCacheKey(host, slug)})
    case Evict(key) => s.(cache := s.cache - {key})
  }

  function Run(s: State, ttlMs: int, events: seq<Event>): State {
    if events == [] then s
    else Step(Run(s, ttlMs, events[..|events| - 1]), ttlMs, events[|events| - 1])
  }

  function Start(now: int): State {
    State(now, [], map[], [], map[])
  }

  lemma {:induction false} RunConcat(s: State, ttlMs: int, a: seq<Event>, b: seq<Event>)
    ensures Run(s, ttlMs, a + b) == Run(Run(s, ttlMs, a), ttlMs, b)
  {
    if b == [] {
      assert a + b == a;
    } else {
      assert (a + b)[..|a + b| - 1] == a + b[..|b| - 1];
      RunConcat(s, ttlMs, a, b[..|b| - 1]);
    }
  }

  /* What every run keeps. */

  /** The read happened between the writes it saw and the ones it did not. */
  predicate Timed(writes: seq<Write>, seen: Seen) {
    && seen.count <= |writes|
    && (forall i :: 0 <= i < seen.count ==> writes[i].at <= seen.at)
    && (forall i :: seen.count <= i < |writes| ==> seen.at <= writes[i].at)
  }

  /** The link is what the origin had for the address at that read. */
  predicate Truthful(writes: seq<Write>, answer: Option<Link>, a: Address, seen: Seen) {
    Timed(writes, seen) && OriginAt(writes, seen.count, a) == answer
  }

  predicate GoodEntry(s: State, e: Entry) {
    && Normal(e.address)
    && Truthful(s.writes, Some(e.link), e.address, e.seen)
    && e.seen.at <= e.setAt <= s.now
  }

  predicate GoodRequest(s: State, ttlMs: int, r: Request) {
    match r.phase
    case Asked => true
    case Missed => true
    case Fetched(link, seen) => Truthful(s.writes, Some(link), r.Address(), seen) && seen.at <= s.now
    case Served(answer, seen, at, fromCache, source, setAt) =>
      && Truthful(s.writes, answer, source, seen)
      && Normal(source) && KeyOf(source) == KeyOf(r.Address())
      && (!fromCache ==> source == r.Address())
      && seen.at <= at <= s.now
      && (answer.None? ==> !fromCache)
      && (fromCache ==> answer.Some? && Entry(answer.value, source, seen, setAt) in s.stored)
      && seen.at <= setAt <= at
      && (fromCache ==> at < setAt + ttlMs)
  }

  ghost predicate Inv(s: State, ttlMs: int) {
    && (forall i :: 0 <= i < |s.writes| ==> s.writes[i].at <= s.now)
    && (forall key <- s.cache :: key == KeyOf(s.cache[key].address) && s.cache[key] in s.stored && GoodEntry(s, s.cache[key]))
    && (forall n :: 0 <= n < |s.stored| ==> GoodEntry(s, s.stored[n]))
    && (forall id <- s.requests :: GoodRequest(s, ttlMs, s.requests[id]))
  }

  lemma TruthSurvives(writes: seq<Write>, w: Write, answer: Option<Link>, a: Address, seen: Seen)
    requires Truthful(writes, answer, a, seen) && seen.at <= w.at
    ensures Truthful(writes + [w], answer, a, seen)
  {
    OriginKeepsPast(writes, w, seen.count, a);
  }

  lemma CommitKeepsInv(s: State, ttlMs: int, address: Address, value: Option<Link>)
    requires Inv(s, ttlMs)
    ensures Inv(Step(s, ttlMs, Commit(address, value)), ttlMs)
  {
    hide Truthful, Normal, KeyOf;
    var t := Step(s, ttlMs, Commit(address, value));
    var w := Write(s.now, address, value);
    forall key | key in t.cache
      ensures GoodEntry(t, t.cache[key])
    {
      TruthSurvives(s.writes, w, Some(s.cache[key].link), s.cache[key].address, s.cache[key].seen);
    }
    forall n | 0 <= n < |t.stored|
      ensures GoodEntry(t, t.stored[n])
    {
      TruthSurvives(s.writes, w, Some(s.stored[n].link), s.stored[n].address, s.stored[n].seen);
    }
    forall id | id in t.requests
      ensures GoodRequest(t, ttlMs, t.requests[id])
    {
      var r := s.requests[id];
      match r.phase {
        case Fetched(link, seen) => TruthSurvives(s.writes, w, Some(link), r.Address(), seen);
        case Served(answer, seen, at, _, source, _) => TruthSurvives(s.writes, w, answer, source, seen);
        case _ =>
      }
    }
  }

  lemma LookupKeepsInv(s: State, ttlMs: int, id: nat)
    requires Inv(s, ttlMs)
    ensures Inv(LookedUp(s, ttlMs, id), ttlMs)
  {
    hide Truthful, Normal;
  }

  lemma OldLookupKeepsInv(s: State, ttlMs: int, id: nat, n: nat)
    requires Inv(s, ttlMs)
    ensures Inv(LookedUpOld(s, ttlMs, id, n), ttlMs)
  {
    hide Truthful, Normal;
  }

  lemma FetchKeepsInv(s: State, ttlMs: int, id: nat)
    requires Inv(s, ttlMs)
    ensures Inv(HasFetched(s, id), ttlMs)
  {
    hide Normal, Normalised;
    if id in s.requests {
      NormalisedIsNormal(s.requests[id].host, s.requests[id].slug);
    }
  }

  lemma StoreKeepsInv(s: State, ttlMs: int, id: nat)
    requires Inv(s, ttlMs)
    ensures Inv(HasStored(s, id), ttlMs)
  {
    hide Truthful, Normal, Normalised;
    if id in s.requests {
      NormalisedIsNormal(s.requests[id].host, s.requests[id].slug);
    }
  }

  lemma OtherKeepInv(s: State, ttlMs: int, e: Event)
    requires Inv(s, ttlMs) && (e.Pass? || e.Ask? || e.Bust? || e.Evict?)
    ensures Inv(Step(s, ttlMs, e), ttlMs)
  {
    hide Truthful, Normal;
  }

  lemma {:induction false} RunInv(now: int, ttlMs: int, events: seq<Event>)
    ensures Inv(Run(Start(now), ttlMs, events), ttlMs)
  {
    if events != [] {
      var n := |events| - 1;
      RunInv(now, ttlMs, events[..n]);
      var s := Run(Start(now), ttlMs, events[..n]);
      StepKeepsInv(s, ttlMs, events[n]);
    }
  }

  lemma StepKeepsInv(s: State, ttlMs: int, e: Event)
    requires Inv(s, ttlMs)
    ensures Inv(Step(s, ttlMs, e), ttlMs)
  {
    hide Inv;
    match e
    case Lookup(id) => LookupKeepsInv(s, ttlMs, id);
    case OldLookup(id, n) => OldLookupKeepsInv(s, ttlMs, id, n);
    case Fetch(id) => FetchKeepsInv(s, ttlMs, id);
    case Store(id) => StoreKeepsInv(s, ttlMs, id);
    case Commit(address, value) => CommitKeepsInv(s, ttlMs, address, value);
    case _ => OtherKeepInv(s, ttlMs, e);
  }

  /** Every answer, cached or not, is what the origin had for an address of the request's
      key, at a point no further back than the TTL plus the delay with which it was stored:
      every write older than that is in it. A miss is never a cached one. The address is
      the very one asked for when the answer is not from the cache or the request is not
      ambiguous. */
  lemma StalenessIsBounded(now: int, ttlMs: int, events: seq<Event>, id: nat)
    requires id in Run(Start(now), ttlMs, events).requests
    requires Run(Start(now), ttlMs, events).requests[id].phase.Served?
    ensures var s := Run(Start(now), ttlMs, events);
      var r := s.requests[id];
      && r.phase.seen.count <= |s.writes|
      && r.phase.answer == OriginAt(s.writes, r.phase.seen.count, r.phase.source)
      && KeyOf(r.phase.source) == KeyOf(r.Address())
      && (!r.phase.fromCache || (PlainHosts(s.writes) && !Ambiguous(r.Address())) ==> r.phase.source == r.Address())
      && (r.phase.answer.None? ==> !r.phase.fromCache)
      && r.phase.seen.at <= r.phase.setAt <= r.phase.at
      && (forall i :: 0 <= i < |s.writes| && s.writes[i].at < r.phase.seen.at ==> i < r.phase.seen.count)
      && (r.phase.fromCache ==>
            && r.phase.answer.Some? && r.phase.at < r.phase.setAt + ttlMs
            && Entry(r.phase.answer.value, r.phase.source, r.phase.seen, r.phase.setAt) in s.stored)
      && (r.phase.fromCache ==>
            forall i :: 0 <= i < |s.writes| && s.writes[i].at <= r.phase.at - ttlMs - (r.phase.setAt - r.phase.seen.at)
              ==> i < r.phase.seen.count)
  {
    hide Run, Normalised, KeyOf, Normal, Ambiguous;
    RunInv(now, ttlMs, events);
    var s := Run(Start(now), ttlMs, events);
    var r := s.requests[id];
    if r.phase.fromCache && PlainHosts(s.writes) && !Ambiguous(r.Address()) {
      FoundIsPlain(s.writes, r.phase.seen.count, r.phase.source);
      KeySpellsAddress(r.phase.source, r.Address());
      NormalisedIsNormal(r.host, r.slug);
      NormalSpelling(r.Address());
    }
  }

  /** Whatever happens, a request of that host and slug is answered with what the origin
      had for it. */
  ghost predicate AlwaysOwn(host: string, slug: string, ttlMs: int) {
    forall now: int, events: seq<Event>, id: nat :: OwnAnswer(Run(Start(now), ttlMs, events), host, slug, id)
  }

  predicate OwnAnswer(s: State, host: string, slug: string, id: nat) {
    id in s.requests && s.requests[id].host == host && s.requests[id].slug == slug
    && s.requests[id].phase.Served? && PlainHosts(s.writes) ==>
      s.requests[id].phase.seen.count <= |s.writes|
      && s.requests[id].phase.answer == OriginAt(s.writes, s.requests[id].phase.seen.count, Normalised(host, slug))
  }

  /** With links on DNS names only, a request is always answered for its own address if and
      only if it is not ambiguous. */
  lemma AlwaysOwnIffNotAmbiguous(host: string, slug: string, ttlMs: int)
    requires ttlMs > 0
    ensures AlwaysOwn(host, slug, ttlMs) <==> !Ambiguous(Normalised(host, slug))
  {
    hide Run, Normalised, KeyOf, Ambiguous;
    if Ambiguous(Normalised(host, slug)) {
      var events := AmbiguousIsMisled(host, slug, ttlMs);
      assert !OwnAnswer(Run(Start(0), ttlMs, events), host, slug, 1);
    } else {
      forall now: int, events: seq<Event>, id: nat
        ensures OwnAnswer(Run(Start(now), ttlMs, events), host, slug, id)
      {
        var s := Run(Start(now), ttlMs, events);
        if id in s.requests && s.requests[id].phase.Served? {
          StalenessIsBounded(now, ttlMs, events, id);
        }
      }
    }
  }

  /** An ambiguous request is served another link's cached answer, though the origin has
      nothing for it. */
  lemma AmbiguousIsMisled(host: string, slug: string, ttlMs: int) returns (events: seq<Event>)
    requires ttlMs > 0 && Ambiguous(Normalised(host, slug))
    ensures var s := Run(Start(0), ttlMs, events);
      && PlainHosts(s.writes)
      && 1 in s.requests && s.requests[1].host == host && s.requests[1].slug == slug
      && s.requests[1].phase.Served? && s.requests[1].phase.answer.Some? && s.requests[1].phase.fromCache
      && s.requests[1].phase.seen.count == |s.writes| == 1
      && OriginAt(s.writes, 1, Normalised(host, slug)) == None
  {
    var asked := Normalised(host, slug);
    var other := Spelled(asked);
    NormalisedIsNormal(host, slug);
    NormalSpelling(asked);
    SpelledSharesKey(asked);
    assert Normalised(other.host, other.slug) == other;
    var link := Link("", None, None);
    assert asked != other;
    var start := [Commit(other, Some(link)), Ask(0, other.host, other.slug)];
    events := start + [Lookup(0), Fetch(0)] + [Store(0), Ask(1, host, slug)] + [Lookup(1), Pass(0)];
    assert Run(Start(0), ttlMs, []) == Start(0) && [] + start == start;
    hide Run, Step, Normalised, KeyOf, Ambiguous, Normal, Spelled;
    TwoMore(Start(0), ttlMs, [], start[0], start[1]);
    TwoMore(Start(0), ttlMs, start, Lookup(0), Fetch(0));
    TwoMore(Start(0), ttlMs, start + [Lookup(0), Fetch(0)], Store(0), Ask(1, host, slug));
    TwoMore(Start(0), ttlMs, start + [Lookup(0), Fetch(0)] + [Store(0), Ask(1, host, slug)], Lookup(1), Pass(0));
    StepsOfTheRun(ttlMs, other, link, host, slug);
  }

  lemma TwoMore(s: State, ttlMs: int, events: seq<Event>, e: Event, f: Event)
    ensures Run(s, ttlMs, events + [e, f]) == Step(Step(Run(s, ttlMs, events), ttlMs, e), ttlMs, f)
  {
    var all := events + [e, f];
    assert all[..|all| - 1] == events + [e];
    assert (events + [e])[..|events|] == events;
  }

  /** A request that nothing comes between is answered: with the cached link while it is
      alive, and otherwise with what the origin has now, if anything; a link that the origin
      gave is stored under the request's key, and nothing else is. */
  lemma UndisturbedIsServed(s: State, ttlMs: int, id: nat)
    requires id in s.requests && s.requests[id].phase.Asked?
    ensures var t := Run(s, ttlMs, [Lookup(id), Fetch(id)] + [Store(id)]);
      var a := s.requests[id].Address();
      var alive := KeyOf(a) in s.cache && s.now < s.cache[KeyOf(a)].setAt + ttlMs;
      var own := OriginAt(s.writes, |s.writes|, a);
      && id in t.requests && t.requests[id].phase.Served?
      && t.requests[id].phase.fromCache == alive
      && t.requests[id].phase.answer == (if alive then Some(s.cache[KeyOf(a)].link) else own)
      && t.cache == if alive || own.None? then s.cache
                    else s.cache[KeyOf(a) := Entry(own.value, a, Seen(|s.writes|, s.now), s.now)]
  {
    hide KeyOf, Normalised, OriginAt;
    TwoMore(s, ttlMs, [], Lookup(id), Fetch(id));
    RunConcat(s, ttlMs, [Lookup(id), Fetch(id)], [Store(id)]);
    assert [Store(id)][..0] == [];
    assert [] + [Lookup(id), Fetch(id)] == [Lookup(id), Fetch(id)];
    assert Run(s, ttlMs, []) == s;
  }

  /** Once the ttl has passed, or its entry has been evicted or busted, an undisturbed
      request gets what the origin has for it now. */
  lemma NothingOutlivesItsEntry(now: int, ttlMs: nat, events: seq<Event>, id: nat, e: Event)
    requires var s := Run(Start(now), ttlMs, events);
      && id in s.requests && s.requests[id].phase.Asked?
      && (e == Pass(ttlMs) || e == Evict(KeyOf(s.requests[id].Address()))
          || e == Bust(s.requests[id].host, s.requests[id].slug))
    ensures var s := Run(Start(now), ttlMs, events);
      var t := Run(Step(s, ttlMs, e), ttlMs, [Lookup(id), Fetch(id)] + [Store(id)]);
      && id in t.requests && t.requests[id].phase.Served? && !t.requests[id].phase.fromCache
      && t.requests[id].phase.answer == OriginAt(s.writes, |s.writes|, s.requests[id].Address())
  {
    hide Run, KeyOf, Normalised, OriginAt;
    RunInv(now, ttlMs, events);
    UndisturbedIsServed(Step(Run(Start(now), ttlMs, events), ttlMs, e), ttlMs, id);
  }

  lemma StepsOfTheRun(ttlMs: int, other: Address, link: Link, host: string, slug: string)
    requires ttlMs > 0 && Normalised(other.host, other.slug) == other
    requires KeyOf(Normalised(host, slug)) == KeyOf(other)
    ensures var s1 := Step(Start(0), ttlMs, Commit(other, Some(link)));
      var s3 := Step(Step(s1, ttlMs, Ask(0, other.host, other.slug)), ttlMs, Lookup(0));
      var s5 := Step(Step(s3, ttlMs, Fetch(0)), ttlMs, Store(0));
      var s := Step(Step(Step(s5, ttlMs, Ask(1, host, slug)), ttlMs, Lookup(1)), ttlMs, Pass(0));
      && s.writes == [Write(0, other, Some(link))]
      && 1 in s.requests
      && s.requests[1] == Request(host, slug, Served(Some(link), Seen(1, 0), 0, true, other, 0))
  {
    hide Normalised, KeyOf;
    var s1 := Step(Start(0), ttlMs, Commit(other, Some(link)));
    assert s1.writes == [Write(0, other, Some(link))] && OriginAt(s1.writes, 1, other) == Some(link);
    var s3 := Step(Step(s1, ttlMs, Ask(0, other.host, other.slug)), ttlMs, Lookup(0));
    assert s3.requests[0].phase == Missed;
    var s4 := Step(s3, ttlMs, Fetch(0));
    assert s4.requests[0].phase == Fetched(link, Seen(1, 0));
    var s5 := Step(s4, ttlMs, Store(0));
    assert s5.cache[KeyOf(other)] == Entry(link, other, Seen(1, 0), 0);
  }

  /* Busts. */

  /** Nothing cached or about to be cached under the key was read before the m-th
      write, and requests still looking can only see later. */
  predicate Fresh(s: State, key: string, m: nat) {
    && m <= |s.writes|
    && (key in s.cache ==> m <= s.cache[key].seen.count)
    && (forall id <- s.requests ::
          s.requests[id].phase.Fetched? && KeyOf(s.requests[id].Address()) == key ==>
            m <= s.requests[id].phase.seen.count)
  }

  /** The n-th entry ever stored is older, under the key, and has not expired. */
  predicate OldAlive(s: State, ttlMs: int, key: string, m: nat, n: nat) {
    n < |s.stored| && KeyOf(s.stored[n].address) == key && s.stored[n].seen.count < m && s.now < s.stored[n].setAt + ttlMs
  }

  ghost predicate AnyOldAlive(s: State, ttlMs: int, key: string, m: nat) {
    exists n: nat :: OldAlive(s, ttlMs, key, m, n)
  }

  /** The requests for a key that have been answered, cached or not, with something older. */
  function StaleAnswers(s: State, key: string, m: nat): set<nat> {
    set id <- s.requests | KeyOf(s.requests[id].Address()) == key
      && s.requests[id].phase.Served? && s.requests[id].phase.seen.count < m
  }

  /** Every cache read sees the latest state of its key. */
  predicate LatestReads(events: seq<Event>) {
    forall i :: 0 <= i < |events| ==> !events[i].OldLookup?
  }

  lemma FreshStep(s: State, ttlMs: int, key: string, m: nat, e: Event)
    requires Fresh(s, key, m) && (e.OldLookup? ==> !AnyOldAlive(s, ttlMs, key, m))
    ensures Fresh(Step(s, ttlMs, e), key, m)
    ensures StaleAnswers(Step(s, ttlMs, e), key, m) <= StaleAnswers(s, key, m)
  {
    hide Normalised, KeyOf, OriginAt;
    if e.OldLookup? {
      assert !OldAlive(s, ttlMs, key, m, e.n);
    }
  }

  /** A fresh key never grows an older entry, and time only expires the ones there are. */
  lemma NoOldComesAlive(s: State, ttlMs: int, key: string, m: nat, e: Event)
    requires Fresh(s, key, m) && !AnyOldAlive(s, ttlMs, key, m)
    ensures !AnyOldAlive(Step(s, ttlMs, e), ttlMs, key, m)
  {
    hide Normalised, KeyOf, OriginAt;
    var t := Step(s, ttlMs, e);
    forall n: nat
      ensures !OldAlive(t, ttlMs, key, m, n)
    {
      assert !OldAlive(s, ttlMs, key, m, n);
    }
  }

  lemma {:induction false} FreshRun(s: State, ttlMs: int, key: string, m: nat, events: seq<Event>)
    requires Fresh(s, key, m) && (LatestReads(events) || !AnyOldAlive(s, ttlMs, key, m))
    ensures Fresh(Run(s, ttlMs, events), key, m)
    ensures StaleAnswers(Run(s, ttlMs, events), key, m) <= StaleAnswers(s, key, m)
    ensures !AnyOldAlive(s, ttlMs, key, m) ==> !AnyOldAlive(Run(s, ttlMs, events), ttlMs, key, m)
  {
    if events != [] {
      hide Fresh, AnyOldAlive, StaleAnswers, Step;
      var n := |events| - 1;
      FreshRun(s, ttlMs, key, m, events[..n]);
      var t := Run(s, ttlMs, events[..n]);
      FreshStep(t, ttlMs, key, m, events[n]);
      if !AnyOldAlive(s, ttlMs, key, m) {
        NoOldComesAlive(t, ttlMs, key, m, events[n]);
      }
    }
  }

  /** A read from before the m-th write that is still to be stored under the key. */
  predicate PendingStale(s: State, key: string, m: nat) {
    exists id <- s.requests :: s.requests[id].phase.Fetched? && KeyOf(s.requests[id].Address()) == key
      && s.requests[id].phase.seen.count < m
  }

  lemma {:induction false} UnusedId(ids: set<nat>) returns (bound: nat)
    ensures forall id <- ids :: id < bound
  {
    if ids == {} {
      bound := 0;
    } else {
      var id :| id in ids;
      var rest := UnusedId(ids - {id});
      assert ids == (ids - {id}) + {id};
      bound := if id < rest then rest else id + 1;
    }
  }

  /** An older read still to be stored: storing it puts the old link back, and the
      next request for it is served from the cache. */
  lemma StoredStaleIsServed(s: State, ttlMs: int, id: nat, next: nat)
    requires ttlMs > 0 && id in s.requests && s.requests[id].phase.Fetched? && next !in s.requests
    ensures var r := s.requests[id];
      var events := [Store(id), Ask(next, r.host, r.slug), Lookup(next)];
      var after := Run(s, ttlMs, events);
      && next in after.requests
      && after.requests[next]
         == Request(r.host, r.slug, Served(Some(r.phase.link), r.phase.seen, s.now, true, r.Address(), s.now))
  {
    hide Normalised, KeyOf;
    var r := s.requests[id];
    var stored := HasStored(s, id);
    var asked := Step(stored, ttlMs, Ask(next, r.host, r.slug));
    var events := [Store(id), Ask(next, r.host, r.slug), Lookup(next)];
    assert events[..2] == [Store(id), Ask(next, r.host, r.slug)];
    assert events[..2][..1] == [Store(id)];
    assert events[..2][..1][..0] == [];
    assert Run(s, ttlMs, [Store(id)]) == stored;
    assert Run(s, ttlMs, events[..2]) == asked;
    assert Run(s, ttlMs, events) == LookedUp(asked, ttlMs, next);
  }

  /** A busted entry that has not expired is served by a cache read that misses the bust. */
  lemma BustedIsServed(s: State, ttlMs: int, host: string, slug: string, n: nat, next: nat)
    requires next !in s.requests && n < |s.stored|
    requires KeyOf(s.stored[n].address) == LinkCacheKey(host, slug) && s.now < s.stored[n].setAt + ttlMs
    ensures var after := Run(s, ttlMs, [Ask(next, host, slug), OldLookup(next, n)]);
      && next in after.requests
      && after.requests[next] == Request(host, slug, Hit(s, s.stored[n]))
  {
    hide Normalised, KeyOf;
    var events := [Ask(next, host, slug), OldLookup(next, n)];
    var asked := Step(s, ttlMs, Ask(next, host, slug));
    assert events[..1] == [Ask(next, host, slug)] && events[..1][..0] == [];
    assert Run(s, ttlMs, events[..1]) == asked;
    assert Run(s, ttlMs, events) == LookedUpOld(asked, ttlMs, next, n);
  }

  /** No later answer holds anything from before the m-th write. */
  predicate Retired(s: State, after: State, key: string, m: nat) {
    StaleAnswers(after, key, m) <= StaleAnswers(s, key, m)
  }

  /** Busting a key after the m-th write, on a cache whose reads see the latest state,
      retires everything older if and only if no older read of that key is still to be
      stored: then no request is answered with it again, and otherwise some continuation
      answers one with it. */
  lemma BustRetiresOldLink(s: State, ttlMs: int, host: string, slug: string, m: nat)
    requires m <= |s.writes| && ttlMs > 0
    ensures var key := LinkCacheKey(host, slug);
      var busted := Step(s, ttlMs, Bust(host, slug));
      !PendingStale(s, key, m) <==>
        forall events :: LatestReads(events) ==> Retired(s, Run(busted, ttlMs, events), key, m)
  {
    hide Run, Normalised, KeyOf, StaleAnswers, AnyOldAlive;
    var key := LinkCacheKey(host, slug);
    var busted := Step(s, ttlMs, Bust(host, slug));
    SameAnswers(s, busted, key, m);
    if PendingStale(s, key, m) {
      var events := PendingStaleComesBack(s, busted, ttlMs, key, m);
      assert LatestReads(events) && !Retired(s, Run(busted, ttlMs, events), key, m);
    } else {
      assert Fresh(busted, key, m);
      forall events | LatestReads(events)
        ensures Retired(s, Run(busted, ttlMs, events), key, m)
      {
        FreshRun(busted, ttlMs, key, m, events);
      }
    }
  }

  /** On a cache whose reads may be old it does so if and only if, besides, every older
      entry of the key has expired: until then the bust may go unnoticed. */
  lemma BustMayGoUnnoticed(s: State, ttlMs: int, host: string, slug: string, m: nat)
    requires m <= |s.writes| && ttlMs > 0
    ensures var key := LinkCacheKey(host, slug);
      var busted := Step(s, ttlMs, Bust(host, slug));
      !PendingStale(s, key, m) && !AnyOldAlive(s, ttlMs, key, m) <==>
        forall events :: Retired(s, Run(busted, ttlMs, events), key, m)
  {
    hide Run, Normalised, KeyOf, StaleAnswers, AnyOldAlive, OldAlive, PendingStale, Fresh;
    var key := LinkCacheKey(host, slug);
    var busted := Step(s, ttlMs, Bust(host, slug));
    SameAnswers(s, busted, key, m);
    SameOldAlive(s, busted, ttlMs, key, m);
    if PendingStale(s, key, m) {
      var events := PendingStaleComesBack(s, busted, ttlMs, key, m);
      assert !Retired(s, Run(busted, ttlMs, events), key, m);
    } else if AnyOldAlive(s, ttlMs, key, m) {
      var events := OldComesBack(s, busted, ttlMs, host, slug, m);
      assert !Retired(s, Run(busted, ttlMs, events), key, m);
    } else {
      BustedIsFresh(s, ttlMs, host, slug, m);
      forall events
        ensures Retired(s, Run(busted, ttlMs, events), key, m)
      {
        FreshRun(busted, ttlMs, key, m, events);
      }
    }
  }

  lemma BustedIsFresh(s: State, ttlMs: int, host: string, slug: string, m: nat)
    requires m <= |s.writes| && !PendingStale(s, LinkCacheKey(host, slug), m)
    ensures Fresh(Step(s, ttlMs, Bust(host, slug)), LinkCacheKey(host, slug), m)
  {
    hide Normalised, KeyOf;
  }

  lemma SameAnswers(s: State, t: State, key: string, m: nat)
    requires t.requests == s.requests
    ensures StaleAnswers(t, key, m) == StaleAnswers(s, key, m)
  {
  }

  lemma SameOldAlive(s: State, t: State, ttlMs: int, key: string, m: nat)
    requires t.stored == s.stored && t.now == s.now
    ensures AnyOldAlive(t, ttlMs, key, m) == AnyOldAlive(s, ttlMs, key, m)
  {
    assert forall n: nat :: OldAlive(t, ttlMs, key, m, n) == OldAlive(s, ttlMs, key, m, n);
  }

  lemma PendingStaleComesBack(s: State, busted: State, ttlMs: int, key: string, m: nat) returns (events: seq<Event>)
    requires ttlMs > 0 && PendingStale(s, key, m) && busted.requests == s.requests
    ensures LatestReads(events) && !Retired(s, Run(busted, ttlMs, events), key, m)
  {
    hide Run, Normalised, KeyOf;
    var id :| id in s.requests && s.requests[id].phase.Fetched? && KeyOf(s.requests[id].Address()) == key
      && s.requests[id].phase.seen.count < m;
    var r := s.requests[id];
    var next := UnusedId(s.requests.Keys);
    assert next !in s.requests;
    StoredStaleIsServed(busted, ttlMs, id, next);
    events := [Store(id), Ask(next, r.host, r.slug), Lookup(next)];
    assert next in StaleAnswers(Run(busted, ttlMs, events), key, m) && next !in StaleAnswers(s, key, m);
  }

  lemma OldComesBack(s: State, busted: State, ttlMs: int, host: string, slug: string, m: nat) returns (events: seq<Event>)
    requires AnyOldAlive(s, ttlMs, LinkCacheKey(host, slug), m)
    requires busted.requests == s.requests && busted.stored == s.stored && busted.now == s.now
    ensures !Retired(s, Run(busted, ttlMs, events), LinkCacheKey(host, slug), m)
  {
    hide Run, Normalised, KeyOf;
    var key := LinkCacheKey(host, slug);
    var n: nat :| OldAlive(s, ttlMs, key, m, n);
    var next := UnusedId(s.requests.Keys);
    assert next !in s.requests;
    BustedIsServed(busted, ttlMs, host, slug, n, next);
    events := [Ask(next, host, slug), OldLookup(next, n)];
    assert next in StaleAnswers(Run(busted, ttlMs, events), key, m) && next !in StaleAnswers(s, key, m);
  }
}
