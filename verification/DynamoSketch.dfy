/** The DynamoDB adapter's sketch merge: read, merge in the process, and write back
    on condition that nobody advanced the version, at most five times. The calls of
    any number of clients interleave at their reads and their writes. A read asks for no
    consistency, so it may return any state the item has been in; a conditional write
    is decided on the latest. */
module DynamoSketch {
  import opened Options
  import opened CachePort

  const MAX_ATTEMPTS := 5

  datatype Attribute = Str(text: string) | Num(n: int) | Bin(bytes: Sketch)

  /** One item of the table; every attribute but the key may be missing. */
  datatype Item = Item(value: Option<Attribute>, ver: Option<int>, expiresAt: Option<int>)

  type Row = Option<Item>

  function EpochSeconds(nowMs: int, ttlSeconds: int): int {
    nowMs / 1000 + ttlSeconds
  }

  function Version(row: Row): int {
    if row.Some? then row.value.ver.GetOr(0) else 0
  }

  function Stored(row: Row): Sketch {
    if row.Some? && row.value.value.Some? && row.value.value.value.Bin? then row.value.value.value.bytes
    else EmptySketch()
  }

  function Expiry(row: Row): Option<int> {
    if row.Some? then row.value.expiresAt else None
  }

  /** The item a call writes over what it read. The first write stamps the expiry;
      later merges keep the one they read. */
  function Written(read: Row, sketch: Sketch, ttlSeconds: Option<int>, nowMs: int): Item
    requires |Stored(read)| == |sketch| == SKETCH_SIZE
  {
    Item(Some(Bin(Merged(Stored(read), sketch))),
         Some(Version(read) + 1),
         if ttlSeconds.Some? && read.None? then Some(EpochSeconds(nowMs, ttlSeconds.value)) else Expiry(read))
  }

  /** attribute_not_exists(ver) OR ver = :expected */
  predicate Guard(row: Row, expected: int) {
    row.None? || row.value.ver.None? || row.value.ver.value == expected
  }

  /** A write that landed. */
  datatype Commit = Commit(client: nat, sketch: Sketch, ttlSeconds: Option<int>, nowMs: int)

  predicate GoodCommits(commits: seq<Commit>) {
    forall i :: 0 <= i < |commits| ==> |commits[i].sketch| == SKETCH_SIZE
  }

  /** The row after a sequence of writes, each merged into the one before. */
  function RowAfter(start: Row, commits: seq<Commit>): (row: Row)
    requires |Stored(start)| == SKETCH_SIZE && GoodCommits(commits)
    ensures |Stored(row)| == SKETCH_SIZE
  {
    if commits == [] then start
    else
      var n := |commits| - 1;
      Some(Written(RowAfter(start, commits[..n]), commits[n].sketch, commits[n].ttlSeconds, commits[n].nowMs))
  }

  lemma {:induction false} RowAfterVersion(start: Row, commits: seq<Commit>)
    requires |Stored(start)| == SKETCH_SIZE && GoodCommits(commits)
    ensures Version(RowAfter(start, commits)) == Version(start) + |commits|
    ensures commits != [] ==> RowAfter(start, commits).Some? && RowAfter(start, commits).value.ver.Some?
  {
    if commits != [] {
      RowAfterVersion(start, commits[..|commits| - 1]);
    }
  }

  lemma RowAfterSnoc(start: Row, commits: seq<Commit>, c: Commit)
    requires |Stored(start)| == SKETCH_SIZE && GoodCommits(commits) && |c.sketch| == SKETCH_SIZE
    ensures GoodCommits(commits + [c])
    ensures RowAfter(start, commits + [c])
         == Some(Written(RowAfter(start, commits), c.sketch, c.ttlSeconds, c.nowMs))
  {
    assert (commits + [c])[..|commits|] == commits;
  }

  /** The guard passes exactly when no write landed since the read. */
  lemma GuardDetectsWrites(start: Row, commits: seq<Commit>, read: nat)
    requires |Stored(start)| == SKETCH_SIZE && GoodCommits(commits) && read <= |commits|
    ensures Guard(RowAfter(start, commits), Version(RowAfter(start, commits[..read]))) <==> read == |commits|
  {
    RowAfterVersion(start, commits);
    RowAfterVersion(start, commits[..read]);
    assert commits[..|commits|] == commits;
  }

  /* What a sequence of writes leaves. */

  /** r is the largest register at position i among the starting sketch and the
      written ones. */
  ghost predicate IsMaximum(r: int, start: Sketch, commits: seq<Commit>, i: nat)
    requires i < SKETCH_SIZE == |start| && GoodCommits(commits)
  {
    && start[i] <= r
    && (forall k :: 0 <= k < |commits| ==> commits[k].sketch[i] <= r)
    && (r == start[i] || exists k :: 0 <= k < |commits| && commits[k].sketch[i] == r)
  }

  lemma {:induction false} RegistersAreMaxima(start: Row, commits: seq<Commit>, i: nat)
    requires |Stored(start)| == SKETCH_SIZE && GoodCommits(commits) && i < SKETCH_SIZE
    ensures IsMaximum(Stored(RowAfter(start, commits))[i], Stored(start), commits, i)
  {
    if commits != [] {
      var n := |commits| - 1;
      RegistersAreMaxima(start, commits[..n], i);
      var r := Stored(RowAfter(start, commits[..n]))[i];
      if r != Stored(start)[i] && commits[n].sketch[i] <= r {
        var k :| 0 <= k < n && commits[..n][k].sketch[i] == r;
        assert commits[k].sketch[i] == r;
      }
    }
  }

  /** Every sketch of the one is a sketch of the other. */
  predicate Covered(a: seq<Commit>, b: seq<Commit>) {
    forall k :: 0 <= k < |a| ==> exists j :: 0 <= j < |b| && b[j].sketch == a[k].sketch
  }

  lemma MaximumIsCovered(r: int, t: int, start: Sketch, a: seq<Commit>, b: seq<Commit>, i: nat)
    requires i < SKETCH_SIZE == |start| && GoodCommits(a) && GoodCommits(b) && Covered(a, b)
    requires IsMaximum(r, start, a, i) && IsMaximum(t, start, b, i)
    ensures r <= t
  {
    if r != start[i] {
      var k :| 0 <= k < |a| && a[k].sketch[i] == r;
      var j :| 0 <= j < |b| && b[j].sketch == a[k].sketch;
      assert b[j].sketch[i] <= t;
    }
  }

  /** What is stored depends only on which sketches were merged: their order and their
      repetition do not matter. */
  lemma OrderAndRepetitionDoNotMatter(start: Row, a: seq<Commit>, b: seq<Commit>)
    requires |Stored(start)| == SKETCH_SIZE && GoodCommits(a) && GoodCommits(b)
    requires Covered(a, b) && Covered(b, a)
    ensures Stored(RowAfter(start, a)) == Stored(RowAfter(start, b))
  {
    hide Written, RowAfter, Stored, Covered, IsMaximum, GoodCommits;
    forall i | 0 <= i < SKETCH_SIZE
      ensures Stored(RowAfter(start, a))[i] == Stored(RowAfter(start, b))[i]
    {
      var r, t := Stored(RowAfter(start, a))[i], Stored(RowAfter(start, b))[i];
      RegistersAreMaxima(start, a, i);
      RegistersAreMaxima(start, b, i);
      MaximumIsCovered(r, t, Stored(start), a, b, i);
      MaximumIsCovered(t, r, Stored(start), b, a, i);
    }
  }

  /** The expiry is the second in which the time to live ends. */
  predicate EndsIn(expiry: Option<int>, nowMs: int, ttlSeconds: int) {
    expiry.Some? && 1000 * expiry.value <= nowMs + 1000 * ttlSeconds < 1000 * expiry.value + 1000
  }

  lemma EpochSecondsEnd(nowMs: int, ttlSeconds: int)
    ensures EndsIn(Some(EpochSeconds(nowMs, ttlSeconds)), nowMs, ttlSeconds)
  {
  }

  /** The item keeps the expiry it had; one that was absent gets its first writer's. */
  predicate FirstExpiry(start: Row, commits: seq<Commit>, expiry: Option<int>)
    requires commits != []
  {
    if start.Some? || commits[0].ttlSeconds.None? then expiry == Expiry(start)
    else EndsIn(expiry, commits[0].nowMs, commits[0].ttlSeconds.value)
  }

  lemma {:induction false} ExpiryIsFirst(start: Row, commits: seq<Commit>)
    requires |Stored(start)| == SKETCH_SIZE && GoodCommits(commits) && commits != []
    ensures FirstExpiry(start, commits, Expiry(RowAfter(start, commits)))
  {
    var n := |commits| - 1;
    if n > 0 {
      ExpiryIsFirst(start, commits[..n]);
      RowAfterVersion(start, commits[..n]);
    }
  }

  /* The interleaving. */

  datatype Phase =
    | Reading(attempt: nat)
    | Writing(attempt: nat, read: Row)
    | Finished(result: Sketch)
    | WrongSize
    | GaveUp

  /** One call. `startedAt` counts the writes that had landed when it began, `versions` the
      writes each of its reads saw, `upToDate` how many of those reads saw them all, and
      `unheard` its own writes that landed without its hearing of it. */
  datatype Client = Client(
    sketch: Sketch,
    ttlSeconds: Option<int>,
    phase: Phase,
    startedAt: nat,
    versions: seq<nat>,
    upToDate: nat,
    unheard: nat)

  /** `past` holds every state of the item, the latest last. */
  datatype State = State(past: seq<Row>, clients: map<nat, Client>, commits: seq<Commit>) {
    function Latest(): Row
      requires past != []
    {
      past[|past| - 1]
    }
  }

  datatype Event =
    | Begin(client: nat, sketch: Sketch, ttlSeconds: Option<int>)
    /** A read that sees the first `version` writes. */
    | GetItem(client: nat, version: nat)
    | PutItem(client: nat, nowMs: int)
    /** A write that lands while its answer is lost; the client library sends it again and
        then finds the condition false. */
    | PutUnheard(client: nat, nowMs: int)

  function Begun(s: State, id: nat, sketch: Sketch, ttl: Option<int>): State {
    if id in s.clients then s
    else s.(clients := s.clients[id := Client(sketch, ttl, Reading(0), |s.commits|, [], 0, 0)])
  }

  /** The read; merging sketches of different sizes throws. */
  function HasRead(s: State, id: nat, version: nat): State {
    if id !in s.clients || !s.clients[id].phase.Reading? || version >= |s.past| then s
    else
      var c, row := s.clients[id], s.past[version];
      var phase := if |c.sketch| != SKETCH_SIZE || |Stored(row)| != SKETCH_SIZE then WrongSize
                   else Writing(c.phase.attempt, row);
      s.(clients := s.clients[id := c.(phase := phase, versions := c.versions + [version],
                                       upToDate := c.upToDate + if version == |s.commits| then 1 else 0)])
  }

  /** The conditional write: it lands, or the next attempt begins. */
  function HasPut(s: State, id: nat, nowMs: int): State {
    if id !in s.clients || !s.clients[id].phase.Writing? || s.past == [] then s
    else
      var c := s.clients[id];
      var read := c.phase.read;
      if |Stored(read)| != SKETCH_SIZE || |c.sketch| != SKETCH_SIZE then s
      else if Guard(s.Latest(), Version(read)) then
        var item := Written(read, c.sketch, c.ttlSeconds, nowMs);
        State(s.past + [Some(item)],
              s.clients[id := c.(phase := Finished(Stored(Some(item))))],
              s.commits + [Commit(id, c.sketch, c.ttlSeconds, nowMs)])
      else s.(clients := s.clients[id := c.(phase := AfterFailing(c.phase.attempt))])
  }

  function AfterFailing(attempt: nat): Phase {
    if attempt + 1 < MAX_ATTEMPTS then Reading(attempt + 1) else GaveUp
  }

  function HasPutUnheard(s: State, id: nat, nowMs: int): State {
    if id !in s.clients || !s.clients[id].phase.Writing? || s.past == [] then s
    else
      var c := s.clients[id];
      var read := c.phase.read;
      if |Stored(read)| != SKETCH_SIZE || |c.sketch| != SKETCH_SIZE || !Guard(s.Latest(), Version(read)) then s
      else
        State(s.past + [Some(Written(read, c.sketch, c.ttlSeconds, nowMs))],
              s.clients[id := c.(phase := AfterFailing(c.phase.attempt), unheard := c.unheard + 1)],
              s.commits + [Commit(id, c.sketch, c.ttlSeconds, nowMs)])
  }

  function Step(s: State, e: Event): State {
    match e
    case Begin(id, sketch, ttl) => Begun(s, id, sketch, ttl)
    case GetItem(id, version) => HasRead(s, id, version)
    case PutItem(id, nowMs) => HasPut(s, id, nowMs)
    case PutUnheard(id, nowMs) => HasPutUnheard(s, id, nowMs)
  }

  function Start(start: Row): State {
    State([start], map[], [])
  }

  function RunFrom(s: State, events: seq<Event>): State {
    if events == [] then s
    else Step(RunFrom(s, events[..|events| - 1]), events[|events| - 1])
  }

  function Run(start: Row, events: seq<Event>): State {
    RunFrom(Start(start), events)
  }

  lemma {:induction false} RunConcat(s: State, a: seq<Event>, b: seq<Event>)
    ensures RunFrom(s, a + b) == RunFrom(RunFrom(s, a), b)
  {
    if b == [] {
      assert a + b == a;
    } else {
      assert (a + b)[..|a + b| - 1] == a + b[..|b| - 1];
      RunConcat(s, a, b[..|b| - 1]);
    }
  }

  ghost predicate ClientInv(start: Row, commits: seq<Commit>, id: nat, c: Client)
    requires |Stored(start)| == SKETCH_SIZE && GoodCommits(commits)
  {
    && c.startedAt <= |commits|
    && (!c.phase.Finished? && c.unheard == 0 ==> forall k :: 0 <= k < |commits| ==> commits[k].client != id)
    && match c.phase
       case Reading(a) =>
         && a == |c.versions| < MAX_ATTEMPTS
         && AllOutdated(c.versions, commits) && c.startedAt + c.upToDate <= |commits|
       case Writing(a, read) =>
         && a + 1 == |c.versions| <= MAX_ATTEMPTS && |c.sketch| == SKETCH_SIZE
         && c.versions[a] <= |commits| && read == RowAfter(start, commits[..c.versions[a]])
         && AllOutdated(c.versions[..a], commits)
         && c.startedAt + c.upToDate <= |commits| + 1
         && (c.versions[a] < |commits| ==> c.startedAt + c.upToDate <= |commits|)
       case Finished(result) =>
         exists k :: c.startedAt <= k < |commits|
           && commits[k].client == id && commits[k].sketch == c.sketch
           && result == Stored(RowAfter(start, commits[..k + 1]))
       case WrongSize =>
         |c.sketch| != SKETCH_SIZE
       case GaveUp =>
         && |c.versions| == MAX_ATTEMPTS && AllOutdated(c.versions, commits)
         && c.startedAt + c.upToDate <= |commits|
  }

  /** Some write has landed after every one of the reads. */
  predicate AllOutdated(versions: seq<nat>, commits: seq<Commit>) {
    forall a :: 0 <= a < |versions| ==> versions[a] < |commits|
  }

  ghost predicate Inv(start: Row, s: State) {
    && |Stored(start)| == SKETCH_SIZE
    && GoodCommits(s.commits)
    && |s.past| == |s.commits| + 1
    && (forall k :: 0 <= k < |s.past| ==> s.past[k] == RowAfter(start, s.commits[..k]))
    && (forall k :: 0 <= k < |s.commits| ==> s.commits[k].client in s.clients)
    && (forall id :: id in s.clients ==> ClientInv(start, s.commits, id, s.clients[id]))
  }

  lemma LatestIsAll(start: Row, s: State)
    requires Inv(start, s)
    ensures s.past != [] && s.Latest() == RowAfter(start, s.commits)
  {
    assert s.commits[..|s.commits|] == s.commits;
  }

  /** A conditional write lands exactly when its read saw every write that has landed. */
  lemma PutLandsIffReadIsLatest(start: Row, s: State, id: nat)
    requires Inv(start, s) && id in s.clients && s.clients[id].phase.Writing?
    ensures var c := s.clients[id];
      && s.past != [] && c.versions != []
      && (Guard(s.Latest(), Version(c.phase.read)) <==> c.versions[|c.versions| - 1] == |s.commits|)
  {
    hide Written, RowAfter, Stored;
    LatestIsAll(start, s);
    var c := s.clients[id];
    assert ClientInv(start, s.commits, id, c);
    GuardDetectsWrites(start, s.commits, c.versions[|c.versions| - 1]);
  }

  lemma PutKeepsInv(start: Row, s: State, id: nat, nowMs: int)
    requires Inv(start, s)
    ensures Inv(start, HasPut(s, id, nowMs))
  {
    hide Written, RowAfter, Stored, Guard;
    if id in s.clients && s.clients[id].phase.Writing? {
      PutLandsIffReadIsLatest(start, s, id);
      if Guard(s.Latest(), Version(s.clients[id].phase.read)) {
        PutLands(start, s, id, nowMs);
      } else {
        PutFails(start, s, id, nowMs);
      }
    }
  }

  lemma PutFails(start: Row, s: State, id: nat, nowMs: int)
    requires Inv(start, s) && id in s.clients && s.clients[id].phase.Writing?
    requires s.past != [] && !Guard(s.Latest(), Version(s.clients[id].phase.read))
    requires s.clients[id].versions != [] && s.clients[id].versions[|s.clients[id].versions| - 1] < |s.commits|
    ensures Inv(start, HasPut(s, id, nowMs))
  {
    hide Written, RowAfter, Stored, Guard;
    var c := s.clients[id];
    assert ClientInv(start, s.commits, id, c);
    assert c.versions == c.versions[..c.phase.attempt] + [c.versions[c.phase.attempt]];
  }

  lemma PutLands(start: Row, s: State, id: nat, nowMs: int)
    requires Inv(start, s) && id in s.clients && s.clients[id].phase.Writing?
    requires s.past != [] && Guard(s.Latest(), Version(s.clients[id].phase.read))
    requires s.clients[id].versions != [] && s.clients[id].versions[|s.clients[id].versions| - 1] == |s.commits|
    ensures Inv(start, HasPut(s, id, nowMs))
  {
    hide Written, RowAfter, Stored, Guard;
    var c, t := s.clients[id], HasPut(s, id, nowMs);
    assert ClientInv(start, s.commits, id, c);
    var own := Commit(id, c.sketch, c.ttlSeconds, nowMs);
    assert s.commits[..|s.commits|] == s.commits;
    RowAfterSnoc(start, s.commits, own);
    assert t.commits == s.commits + [own];
    var k := |s.commits|;
    assert t.commits[..k + 1] == t.commits && t.commits[k] == own;
    assert forall j :: 0 <= j <= k ==> t.commits[..j] == s.commits[..j];
    forall other | other in t.clients
      ensures ClientInv(start, t.commits, other, t.clients[other])
    {
      if other != id {
        ClientSurvivesCommit(start, s.commits, t.commits, other, s.clients[other], own);
      }
    }
  }

  lemma PutUnheardKeepsInv(start: Row, s: State, id: nat, nowMs: int)
    requires Inv(start, s)
    ensures Inv(start, HasPutUnheard(s, id, nowMs))
  {
    hide Written, RowAfter, Stored, Guard;
    var t := HasPutUnheard(s, id, nowMs);
    if t != s {
      var c := s.clients[id];
      PutLandsIffReadIsLatest(start, s, id);
      LatestIsAll(start, s);
      assert ClientInv(start, s.commits, id, c);
      var own := Commit(id, c.sketch, c.ttlSeconds, nowMs);
      assert s.commits[..|s.commits|] == s.commits;
      RowAfterSnoc(start, s.commits, own);
      assert t.commits == s.commits + [own];
      assert t.commits[..|t.commits|] == t.commits;
      assert forall j :: 0 <= j <= |s.commits| ==> t.commits[..j] == s.commits[..j];
      assert c.versions == c.versions[..c.phase.attempt] + [c.versions[c.phase.attempt]];
      forall other | other in t.clients
        ensures ClientInv(start, t.commits, other, t.clients[other])
      {
        if other != id {
          ClientSurvivesCommit(start, s.commits, t.commits, other, s.clients[other], own);
        }
      }
    }
  }

  lemma ClientSurvivesCommit(start: Row, before: seq<Commit>, after: seq<Commit>, id: nat, c: Client, own: Commit)
    requires |Stored(start)| == SKETCH_SIZE && GoodCommits(before) && |own.sketch| == SKETCH_SIZE
    requires ClientInv(start, before, id, c) && own.client != id && after == before + [own]
    ensures GoodCommits(after) && ClientInv(start, after, id, c)
  {
    hide Written, RowAfter, Stored;
    match c.phase {
      case Writing(a, _) =>
        assert after[..c.versions[a]] == before[..c.versions[a]];
      case Finished(result) =>
        var k :| c.startedAt <= k < |before|
          && before[k].client == id && before[k].sketch == c.sketch
          && result == Stored(RowAfter(start, before[..k + 1]));
        assert after[..k + 1] == before[..k + 1] && after[k] == before[k];
      case _ =>
    }
  }

  lemma ReadKeepsInv(start: Row, s: State, id: nat, version: nat)
    requires Inv(start, s)
    ensures Inv(start, HasRead(s, id, version))
  {
    hide Written, RowAfter, Stored;
    if id in s.clients && s.clients[id].phase.Reading? && version < |s.past| {
      var c := s.clients[id];
      assert ClientInv(start, s.commits, id, c);
      assert s.past[version] == RowAfter(start, s.commits[..version]);
      var versions := c.versions + [version];
      assert versions[..|c.versions|] == c.versions;
    }
  }

  lemma StartInv(start: Row)
    requires |Stored(start)| == SKETCH_SIZE
    ensures Inv(start, Start(start))
  {
    hide Written, Stored;
  }

  lemma BeginKeepsInv(start: Row, s: State, id: nat, sketch: Sketch, ttl: Option<int>)
    requires Inv(start, s)
    ensures Inv(start, Begun(s, id, sketch, ttl))
  {
    hide Written, RowAfter, Stored;
  }

  lemma {:induction false} RunInv(start: Row, events: seq<Event>)
    requires |Stored(start)| == SKETCH_SIZE
    ensures Inv(start, Run(start, events))
  {
    hide Written, RowAfter, Stored, HasRead, HasPut, HasPutUnheard, Begun, Inv;
    if events == [] {
      StartInv(start);
    } else {
      var before := events[..|events| - 1];
      RunInv(start, before);
      var s := Run(start, before);
      match events[|events| - 1] {
        case Begin(id, sketch, ttl) => BeginKeepsInv(start, s, id, sketch, ttl);
        case GetItem(id, version) => ReadKeepsInv(start, s, id, version);
        case PutItem(id, nowMs) => PutKeepsInv(start, s, id, nowMs);
        case PutUnheard(id, nowMs) => PutUnheardKeepsInv(start, s, id, nowMs);
      }
    }
  }

  /** In every reachable state, however old the reads were, no merge is lost: each stored
      register is the maximum over the starting item and every write that landed, the
      version counts those writes, and the expiry is the first writer's or the one already
      there. */
  lemma NoMergeIsLost(start: Row, events: seq<Event>)
    requires |Stored(start)| == SKETCH_SIZE
    ensures var s := Run(start, events);
      && GoodCommits(s.commits)
      && s.past != [] && |Stored(s.Latest())| == SKETCH_SIZE
      && (forall i :: 0 <= i < SKETCH_SIZE ==> IsMaximum(Stored(s.Latest())[i], Stored(start), s.commits, i))
      && (s.commits == [] ==> s.Latest() == start)
      && (s.commits != [] ==>
            && s.Latest().Some?
            && s.Latest().value.ver
               == Some(|s.commits| + if start.Some? && start.value.ver.Some? then start.value.ver.value else 0))
      && (s.commits != [] ==> FirstExpiry(start, s.commits, Expiry(s.Latest())))
  {
    hide Written, Run, IsMaximum;
    RunInv(start, events);
    var s := Run(start, events);
    LatestIsAll(start, s);
    RowAfterVersion(start, s.commits);
    forall i | 0 <= i < SKETCH_SIZE
      ensures IsMaximum(Stored(s.Latest())[i], Stored(start), s.commits, i)
    {
      RegistersAreMaxima(start, s.commits, i);
    }
    if s.commits != [] {
      ExpiryIsFirst(start, s.commits);
    }
  }

  /** A call keeps the sketch and the time to live it was begun with, and counts as begun when
      it was. */
  lemma {:induction false} CallKeepsItsSketch(start: Row, events: seq<Event>, k: nat)
    requires k < |events| && events[k].Begin?
    requires forall j :: 0 <= j < k && events[j].Begin? ==> events[j].client != events[k].client
    ensures var s, id := Run(start, events), events[k].client;
      && id in s.clients && s.clients[id].sketch == events[k].sketch && s.clients[id].ttlSeconds == events[k].ttlSeconds
      && s.clients[id].startedAt == |Run(start, events[..k]).commits|
  {
    hide Written, Stored, Guard;
    var n := |events| - 1;
    if k < n {
      CallKeepsItsSketch(start, events[..n], k);
      assert events[..n][..k] == events[..k];
    } else {
      UnbegunIsAbsent(start, events[..n], events[k].client);
    }
  }

  lemma {:induction false} UnbegunIsAbsent(start: Row, events: seq<Event>, id: nat)
    requires forall j :: 0 <= j < |events| && events[j].Begin? ==> events[j].client != id
    ensures id !in Run(start, events).clients
  {
    hide Written, Stored, Guard;
    if events != [] {
      UnbegunIsAbsent(start, events[..|events| - 1], id);
    }
  }

  /** Each write is its call's sketch with its call's time to live. */
  predicate OwnCommits(s: State) {
    forall k :: 0 <= k < |s.commits| ==>
      && s.commits[k].client in s.clients
      && s.commits[k].sketch == s.clients[s.commits[k].client].sketch
      && s.commits[k].ttlSeconds == s.clients[s.commits[k].client].ttlSeconds
  }

  lemma StepKeepsOwn(s: State, e: Event)
    requires OwnCommits(s)
    ensures OwnCommits(Step(s, e))
  {
    hide Written, Stored, Guard, Version;
    match e
    case Begin(_, _, _) =>
    case GetItem(_, _) =>
    case PutItem(id, nowMs) =>
    case PutUnheard(id, nowMs) =>
  }

  /** What has landed is the calls' own. */
  lemma {:induction false} CommitsAreTheCalls(start: Row, events: seq<Event>)
    ensures OwnCommits(Run(start, events))
  {
    hide OwnCommits, Step;
    if events == [] {
      NothingLanded(start);
    } else {
      CommitsAreTheCalls(start, events[..|events| - 1]);
      StepKeepsOwn(Run(start, events[..|events| - 1]), events[|events| - 1]);
    }
  }

  lemma NothingLanded(start: Row)
    ensures OwnCommits(Start(start))
  {
  }

  /** A stored blob of another size makes every call fail at its read: nothing is
      ever written over it. */
  lemma {:induction false} ForeignBytesStay(start: Row, events: seq<Event>)
    requires |Stored(start)| != 16_384
    ensures var s := Run(start, events);
      s.past == [start] && s.commits == [] && forall id <- s.clients :: s.clients[id].phase in {Reading(0), WrongSize}
  {
    hide Written, RowAfter, Stored;
    if events != [] {
      ForeignBytesStay(start, events[..|events| - 1]);
    }
  }

  /** After each of the five reads of a call that gives up some write has landed, and at
      least as many landed while it ran as its reads were up to date, five when all of them
      were. All of them are other calls' unless its own landed without its hearing of it. */
  lemma GivingUpNeedsRivals(start: Row, events: seq<Event>, id: nat)
    requires |Stored(start)| == SKETCH_SIZE
    requires id in Run(start, events).clients && Run(start, events).clients[id].phase.GaveUp?
    ensures var s := Run(start, events);
      var c := s.clients[id];
      && |c.versions| == 5 && AllOutdated(c.versions, s.commits)
      && c.startedAt + c.upToDate <= |s.commits|
      && (c.unheard == 0 ==> forall k :: 0 <= k < |s.commits| ==> s.commits[k].client != id)
  {
    RunInv(start, events);
  }

  /** An attempt of the client on an old version changes nothing but the attempt. */
  lemma OutdatedAttempt(start: Row, s: State, id: nat, version: nat, nowMs: int)
    requires Inv(start, s) && id in s.clients && s.clients[id].phase.Reading?
    requires |s.clients[id].sketch| == SKETCH_SIZE && version < |s.commits|
    ensures var c := s.clients[id];
      var t := RunFrom(s, [GetItem(id, version), PutItem(id, nowMs)]);
      && Inv(start, t) && t.commits == s.commits && id in t.clients
      && t.clients[id].sketch == c.sketch
      && t.clients[id].phase
         == if c.phase.attempt + 1 < MAX_ATTEMPTS then Reading(c.phase.attempt + 1) else GaveUp
  {
    hide Written, RowAfter, Stored, Guard, Inv;
    var both := [GetItem(id, version), PutItem(id, nowMs)];
    assert both[..1] == [GetItem(id, version)] && both[..1][..0] == [];
    var r := HasRead(s, id, version);
    assert RunFrom(s, both[..1]) == r && RunFrom(s, both) == HasPut(r, id, nowMs);
    ReadKeepsInv(start, s, id, version);
    ReadsASketch(start, s, version);
    PutLandsIffReadIsLatest(start, r, id);
    PutKeepsInv(start, r, id, nowMs);
  }

  lemma ReadsASketch(start: Row, s: State, version: nat)
    requires Inv(start, s) && version <= |s.commits|
    ensures version < |s.past| && |Stored(s.past[version])| == SKETCH_SIZE
  {
    hide Written, Stored;
    assert s.past[version] == RowAfter(start, s.commits[..version]);
  }

  function Attempts(id: nat, version: nat, nowMs: int, n: nat): seq<Event> {
    if n == 0 then [] else Attempts(id, version, nowMs, n - 1) + [GetItem(id, version), PutItem(id, nowMs)]
  }

  lemma {:induction false} OutdatedAttempts(start: Row, s: State, id: nat, version: nat, nowMs: int, n: nat)
    requires Inv(start, s) && id in s.clients && s.clients[id].phase == Reading(0) && n <= MAX_ATTEMPTS
    requires |s.clients[id].sketch| == SKETCH_SIZE && version < |s.commits|
    ensures var t := RunFrom(s, Attempts(id, version, nowMs, n));
      && Inv(start, t) && t.commits == s.commits && id in t.clients && t.clients[id].sketch == s.clients[id].sketch
      && t.clients[id].phase == if n < MAX_ATTEMPTS then Reading(n) else GaveUp
  {
    hide Inv;
    if n > 0 {
      OutdatedAttempts(start, s, id, version, nowMs, n - 1);
      var t := RunFrom(s, Attempts(id, version, nowMs, n - 1));
      OutdatedAttempt(start, t, id, version, nowMs);
      RunConcat(s, Attempts(id, version, nowMs, n - 1), [GetItem(id, version), PutItem(id, nowMs)]);
    }
  }

  /** One write is enough to defeat a call: from any reachable state in which something
      has landed, five reads that miss it make the call give up although nothing lands
      while it runs. */
  lemma OldReadsDefeatACall(start: Row, events: seq<Event>, id: nat, version: nat, nowMs: int)
    requires |Stored(start)| == SKETCH_SIZE
    requires id in Run(start, events).clients && Run(start, events).clients[id].phase == Reading(0)
    requires |Run(start, events).clients[id].sketch| == SKETCH_SIZE && version < |Run(start, events).commits|
    ensures var t := Run(start, events + Attempts(id, version, nowMs, 5));
      && t.commits == Run(start, events).commits
      && id in t.clients && t.clients[id].phase == GaveUp
  {
    hide Inv, Attempts, RunFrom;
    RunInv(start, events);
    RunConcat(Start(start), events, Attempts(id, version, nowMs, MAX_ATTEMPTS));
    OutdatedAttempts(start, Run(start, events), id, version, nowMs, MAX_ATTEMPTS);
  }

  /** A call that finishes answers the sketch its own write stored, which holds at
      least its own registers, and the stored sketch never shrinks below that. */
  lemma FinishedIsStored(start: Row, events: seq<Event>, id: nat, i: nat)
    requires |Stored(start)| == SKETCH_SIZE && i < SKETCH_SIZE
    requires id in Run(start, events).clients && Run(start, events).clients[id].phase.Finished?
    ensures var s := Run(start, events);
      var c := s.clients[id];
      && s.past != [] && |c.sketch| == |c.phase.result| == |Stored(s.Latest())| == SKETCH_SIZE
      && c.sketch[i] <= c.phase.result[i] <= Stored(s.Latest())[i]
      && exists k :: c.startedAt <= k < |s.commits| && s.commits[k].client == id && s.commits[k].sketch == c.sketch
  {
    hide Written, RowAfter, Stored, Run, ClientInv;
    RunInv(start, events);
    var s := Run(start, events);
    LatestIsAll(start, s);
    var c := s.clients[id];
    var k := OwnWrite(start, s, id, c);
    WrittenRegister(start, s.commits, k, i);
    RegistersGrow(start, s.commits, k + 1, i);
  }

  lemma OwnWrite(start: Row, s: State, id: nat, c: Client) returns (k: nat)
    requires |Stored(start)| == SKETCH_SIZE && GoodCommits(s.commits)
    requires ClientInv(start, s.commits, id, c) && c.phase.Finished?
    ensures c.startedAt <= k < |s.commits| && s.commits[k].client == id && s.commits[k].sketch == c.sketch
    ensures c.phase.result == Stored(RowAfter(start, s.commits[..k + 1]))
  {
    hide Written, RowAfter, Stored;
    k :| c.startedAt <= k < |s.commits|
      && s.commits[k].client == id && s.commits[k].sketch == c.sketch
      && c.phase.result == Stored(RowAfter(start, s.commits[..k + 1]));
  }

  lemma WrittenRegister(start: Row, commits: seq<Commit>, k: nat, i: nat)
    requires |Stored(start)| == SKETCH_SIZE && GoodCommits(commits) && k < |commits| && i < SKETCH_SIZE
    ensures commits[k].sketch[i] <= Stored(RowAfter(start, commits[..k + 1]))[i]
  {
    hide Written, RowAfter, Stored;
    RegistersAreMaxima(start, commits[..k + 1], i);
    assert commits[..k + 1][k] == commits[k];
  }

  lemma RegistersGrow(start: Row, commits: seq<Commit>, n: nat, i: nat)
    requires |Stored(start)| == SKETCH_SIZE && GoodCommits(commits) && n <= |commits| && i < SKETCH_SIZE
    ensures Stored(RowAfter(start, commits[..n]))[i] <= Stored(RowAfter(start, commits))[i]
  {
    hide Written, RowAfter, Stored;
    RegistersAreMaxima(start, commits[..n], i);
    RegistersAreMaxima(start, commits, i);
    var r := Stored(RowAfter(start, commits[..n]))[i];
    if r != Stored(start)[i] {
      var k :| 0 <= k < n && commits[..n][k].sketch[i] == r;
      assert commits[k].sketch[i] == r;
    }
  }

  /* The loop. */

  /** What one attempt meets: the writes of other calls before it reads, how many writes
      its read sees, and the writes between its read and its own. */
  datatype Meets = Meets(before: seq<Commit>, version: nat, between: seq<Commit>)

  predicate GoodMeets(m: Meets, id: nat) {
    GoodCommits(m.before) && GoodCommits(m.between) && Others(m.before, id) && Others(m.between, id)
  }

  /** None of the writes is the call's own. */
  predicate Others(commits: seq<Commit>, id: nat) {
    forall k :: 0 <= k < |commits| ==> commits[k].client != id
  }

  /** Everything other calls write before the n-th attempt. */
  function Rivals(meets: seq<Meets>, n: nat): seq<Commit>
    requires n <= |meets|
  {
    if n == 0 then [] else Rivals(meets, n - 1) + meets[n - 1].before + meets[n - 1].between
  }

  /** The attempt reads the latest version, `base` writes having landed before the call,
      and nothing lands before it writes. */
  predicate Undisturbed(base: nat, meets: seq<Meets>, a: nat)
    requires a < |meets|
  {
    meets[a].between == [] && base + |Rivals(meets, a)| + |meets[a].before| <= meets[a].version
  }

  datatype Tried = Threw | Landed | Lost

  datatype Outcome = Merge(result: Sketch) | SizeError | Contention

  /** The item of one key, with every state it has been in. */
  class Table {
    var past: seq<Row>
    ghost var commits: seq<Commit>

    ghost predicate Valid()
      reads this
    {
      && |past| == |commits| + 1
      && past != [] && |Stored(past[0])| == SKETCH_SIZE && GoodCommits(commits)
      && forall k :: 0 <= k < |past| ==> past[k] == RowAfter(past[0], commits[..k])
    }

    constructor (row: Row)
      requires |Stored(row)| == SKETCH_SIZE
      ensures Valid() && past == [row] && commits == []
    {
      past, commits := [row], [];
    }

    function Latest(): Row
      requires past != []
      reads this
    {
      past[|past| - 1]
    }

    /** The write condition on a version read earlier. */
    lemma DetectsWrites(version: nat)
      requires Valid() && version < |past|
      ensures Guard(Latest(), Version(past[version])) <==> version == |commits|
    {
      hide Written, RowAfter, Guard, Version;
      assert commits[..|commits|] == commits;
      GuardDetectsWrites(past[0], commits, version);
    }

    method Write(read: Row, c: Commit)
      requires Valid() && |c.sketch| == SKETCH_SIZE && read == Latest()
      modifies this
      ensures Valid() && commits == old(commits) + [c]
      ensures past == old(past) + [Some(Written(read, c.sketch, c.ttlSeconds, c.nowMs))]
    {
      hide Written, RowAfter, Stored, GoodCommits;
      assert commits[..|commits|] == commits;
      RowAfterSnoc(past[0], commits, c);
      past := past + [Some(Written(read, c.sketch, c.ttlSeconds, c.nowMs))];
      commits := commits + [c];
      assert commits[..|commits|] == commits;
      assert forall k :: 0 <= k < |past| - 1 ==> commits[..k] == old(commits)[..k];
    }

    method Interfere(rivals: seq<Commit>)
      requires Valid() && GoodCommits(rivals)
      modifies this
      ensures Valid() && old(past) <= past && commits == old(commits) + rivals
    {
      hide Written, RowAfter, Stored;
      var i := 0;
      while i < |rivals|
        invariant 0 <= i <= |rivals|
        invariant Valid() && old(past) <= past && commits == old(commits) + rivals[..i]
      {
        assert rivals[..i + 1] == rivals[..i] + [rivals[i]];
        Write(Latest(), rivals[i]);
        i := i + 1;
      }
      assert rivals[..i] == rivals;
    }

    /** One attempt: it lands exactly when its read sees every write and nothing lands
        before its own; merging sketches of different sizes throws after the read. */
    method Attempt(own: Commit, meets: Meets) returns (tried: Tried)
      requires Valid() && GoodCommits(meets.before) && GoodCommits(meets.between)
      modifies this
      ensures Valid() && old(past) <= past
      ensures tried.Threw? <==> |own.sketch| != SKETCH_SIZE
      ensures tried.Landed? <==>
        |own.sketch| == SKETCH_SIZE && meets.between == [] && |old(commits)| + |meets.before| <= meets.version
      ensures commits == old(commits) + meets.before +
        match tried case Threw => [] case Lost => meets.between case Landed => [own]
    {
      hide Written, RowAfter, Guard, Version, GoodCommits;
      Interfere(meets.before);
      var version := meets.version;
      if version >= |past| {
        version := |past| - 1;
      }
      var read := past[version];
      if |own.sketch| != SKETCH_SIZE {
        return Threw;
      }
      Interfere(meets.between);
      DetectsWrites(version);
      if !Guard(Latest(), Version(read)) {
        return Lost;
      }
      Write(read, own);
      return Landed;
    }

    /** The loop lands the call's own write, merged into everything before it, at the first
        attempt that reads the latest version and meets no rival before it writes; without
        one it has written nothing. */
    method MergeSketch(id: nat, sketch: Sketch, ttlSeconds: Option<int>, nowMs: seq<int>, meets: seq<Meets>)
      returns (outcome: Outcome, ghost at: nat)
      requires Valid() && |nowMs| == |meets| == MAX_ATTEMPTS
      requires forall a :: 0 <= a < MAX_ATTEMPTS ==> GoodMeets(meets[a], id)
      modifies this
      ensures Valid() && old(past) <= past
      ensures outcome.SizeError? <==> |sketch| != SKETCH_SIZE
      ensures outcome.SizeError? ==> commits == old(commits) + meets[0].before
      ensures outcome.Merge? <==>
        |sketch| == SKETCH_SIZE && exists a: nat :: a < MAX_ATTEMPTS && Undisturbed(|old(commits)|, meets, a)
      ensures outcome.Merge? ==>
        && at < MAX_ATTEMPTS && Undisturbed(|old(commits)|, meets, at)
        && (forall a: nat :: a < at ==> !Undisturbed(|old(commits)|, meets, a))
        && commits == old(commits) + Rivals(meets, at) + meets[at].before + [Commit(id, sketch, ttlSeconds, nowMs[at])]
        && outcome.result == Stored(Latest())
      ensures outcome.Contention? ==> commits == old(commits) + Rivals(meets, MAX_ATTEMPTS)
    {
      assert past != [];
      hide Stored, GoodCommits, Others, RowAfter, Valid;
      at := 0;
      for attempt := 0 to MAX_ATTEMPTS
        invariant Valid() && old(past) <= past && past != []
        invariant commits == old(commits) + Rivals(meets, attempt)
        invariant attempt > 0 ==> |sketch| == SKETCH_SIZE
        invariant forall a: nat :: a < attempt ==> !Undisturbed(|old(commits)|, meets, a)
      {
        at := attempt;
        var tried := Attempt(Commit(id, sketch, ttlSeconds, nowMs[attempt]), meets[attempt]);
        match tried {
          case Threw =>
            return SizeError, at;
          case Landed =>
            assert Undisturbed(|old(commits)|, meets, attempt);
            return Merge(Stored(Latest())), at;
          case Lost =>
        }
      }
      return Contention, at;
    }
  }

  /** The attempt's read sees everything that has landed by then. */
  predicate UpToDate(base: nat, meets: seq<Meets>, a: nat)
    requires a < |meets|
  {
    base + |Rivals(meets, a)| + |meets[a].before| <= meets[a].version
  }

  /** A call whose reads are all up to date fails only on as many rivals as attempts. */
  lemma {:induction false} FailingNeedsRivals(base: nat, meets: seq<Meets>, n: nat)
    requires n <= |meets|
    requires forall a: nat :: a < n ==> UpToDate(base, meets, a) && !Undisturbed(base, meets, a)
    ensures |Rivals(meets, n)| >= n
  {
    if n > 0 {
      hide Rivals;
      FailingNeedsRivals(base, meets, n - 1);
      assert UpToDate(base, meets, n - 1) && !Undisturbed(base, meets, n - 1);
      RivalsGrow(meets, n);
    }
  }

  lemma RivalsGrow(meets: seq<Meets>, n: nat)
    requires 0 < n <= |meets|
    ensures |Rivals(meets, n)| == |Rivals(meets, n - 1)| + |meets[n - 1].before| + |meets[n - 1].between|
  {
  }
}
