/** The atomic click-limit reservation: concurrent upserts of one counter row, with
    the seeding insert, the row lock, the predicate test and the commit as separate
    steps, and the rollup's own writes between them. */
module ClickReservation {
  import opened Options
  import opened IntRange

  datatype Row = Row(clicks: int, reserved: int)

  /** Where a call's statement stands. `Seeding` and `Updating` hold the lock with an
      uncommitted row; `Testing` holds it before the predicate has been evaluated; `Lost`
      has committed, but its answer never reached the caller. */
  datatype Phase =
    | Called
    | Inserting
    | Waiting
    | Seeding
    | Testing
    | Updating
    | Granted(ordinal: int)
    | Lost(ordinal: int)
    | Refused
    | Aborted

  datatype Call = Call(limit: int, phase: Phase)

  datatype State = State(row: Option<Row>, holder: Option<nat>, calls: map<nat, Call>)

  datatype Event =
    | Begin(id: nat, limit: int)
    | Select(id: nat)      // select ... where limit >= 1
    | Insert(id: nat)      // insert the seed row, or meet the existing one
    | Lock(id: nat)
    | Test(id: nat)        // where reserved < limit
    | Commit(id: nat, acknowledged: bool)
    | Abort(id: nat)
    | Rollup(clicks: int)

  function Put(s: State, id: nat, phase: Phase): State
    requires id in s.calls
  {
    s.(calls := s.calls[id := s.calls[id].(phase := phase)])
  }

  function Reserved(row: Option<Row>): int {
    if row.Some? then row.value.reserved else 0
  }

  predicate At(s: State, id: nat, phase: Phase) {
    id in s.calls && s.calls[id].phase == phase
  }

  function Outcome(ordinal: int, acknowledged: bool): Phase {
    if acknowledged then Granted(ordinal) else Lost(ordinal)
  }

  /** The call has counted against the limit. */
  predicate Spent(p: Phase) {
    p.Granted? || p.Lost?
  }

  function Ordinal(p: Phase): int {
    match p
    case Granted(n) => n
    case Lost(n) => n
    case _ => 0
  }

  function Step(s: State, e: Event): State {
    match e
    case Begin(id, limit) =>
      if id in s.calls then s else s.(calls := s.calls[id := Call(limit, Called)])
    case Select(id) =>
      if !At(s, id, Called) then s
      else Put(s, id, if s.calls[id].limit >= 1 then Inserting else Refused)
    case Insert(id) =>
      if !At(s, id, Inserting) then s
      else if s.row.Some? then Put(s, id, Waiting)
      else if s.holder.Some? then s
      else Put(s, id, Seeding).(holder := Some(id))
    case Lock(id) =>
      if !At(s, id, Waiting) || s.holder.Some? then s
      else Put(s, id, Testing).(holder := Some(id))
    case Test(id) =>
      if !At(s, id, Testing) then s
      else if Reserved(s.row) < s.calls[id].limit then Put(s, id, Updating)
      else Put(s, id, Refused).(holder := None)
    case Commit(id, acknowledged) =>
      if At(s, id, Seeding) then
        Put(s, id, Outcome(1, acknowledged)).(holder := None, row := Some(Row(0, 1)))
      else if At(s, id, Updating) && s.row.Some? then
        var n := s.row.value.reserved + 1;
        Put(s, id, Outcome(n, acknowledged)).(holder := None, row := Some(s.row.value.(reserved := n)))
      else s
    case Abort(id) =>
      if id !in s.calls || Spent(s.calls[id].phase) || s.calls[id].phase.Refused? then s
      else Put(s, id, Aborted).(holder := if s.holder == Some(id) then None else s.holder)
    case Rollup(clicks) =>
      if s.holder.Some? then s
      else s.(row := Some(if s.row.Some? then s.row.value.(clicks := clicks) else Row(clicks, 0)))
  }

  function Run(start: Option<Row>, events: seq<Event>): State {
    if events == [] then State(start, None, map[])
    else Step(Run(start, events[..|events| - 1]), events[|events| - 1])
  }

  function SpentCalls(s: State): set<nat> {
    set id <- s.calls | Spent(s.calls[id].phase)
  }

  function GrantedCalls(s: State): set<nat> {
    set id <- s.calls | s.calls[id].phase.Granted?
  }

  function LostCalls(s: State): set<nat> {
    set id <- s.calls | s.calls[id].phase.Lost?
  }

  lemma SpentIsGrantedOrLost(s: State)
    ensures |SpentCalls(s)| == |GrantedCalls(s)| + |LostCalls(s)|
  {
    assert SpentCalls(s) == GrantedCalls(s) + LostCalls(s);
    assert GrantedCalls(s) !! LostCalls(s);
  }

  predicate Holds(p: Phase) {
    p.Seeding? || p.Testing? || p.Updating?
  }

  predicate CallOk(base: int, row: Option<Row>, holder: Option<nat>, id: nat, c: Call) {
    && (Holds(c.phase) <==> holder == Some(id))
    && match c.phase
       case Called => true
       case Inserting => c.limit >= 1
       case Waiting => row.Some?
       case Seeding => row.None? && c.limit >= 1
       case Testing => row.Some?
       case Updating => row.Some? && Reserved(row) < c.limit
       case Granted(n) => row.Some? && base < n <= Reserved(row) && n <= c.limit
       case Lost(n) => row.Some? && base < n <= Reserved(row) && n <= c.limit
       case Refused => c.limit < 1 || (row.Some? && c.limit <= Reserved(row))
       case Aborted => true
  }

  ghost predicate DistinctOutcomes(calls: map<nat, Call>) {
    forall a <- calls, b <- calls :: a != b && Spent(calls[a].phase) && Spent(calls[b].phase) ==>
      Ordinal(calls[a].phase) != Ordinal(calls[b].phase)
  }

  ghost predicate Inv(base: int, s: State) {
    && (s.row.None? ==> base == 0)
    && Reserved(s.row) == base + |SpentCalls(s)|
    && (s.holder.Some? ==> s.holder.value in s.calls)
    && (forall id <- s.calls :: CallOk(base, s.row, s.holder, id, s.calls[id]))
    && DistinctOutcomes(s.calls)
  }

  lemma SameSpent(s: State, t: State)
    requires forall id :: id in s.calls && Spent(s.calls[id].phase) <==> id in t.calls && Spent(t.calls[id].phase)
    ensures SpentCalls(t) == SpentCalls(s)
  {
  }

  lemma CommitCounts(s: State, id: nat, acknowledged: bool)
    requires Step(s, Commit(id, acknowledged)) != s
    ensures |SpentCalls(Step(s, Commit(id, acknowledged)))| == |SpentCalls(s)| + 1
  {
    assert SpentCalls(Step(s, Commit(id, acknowledged))) == SpentCalls(s) + {id};
    assert id !in SpentCalls(s);
  }

  /** What a commit does to a state that keeps the invariant. */
  lemma CommitEffect(base: int, s: State, id: nat, acknowledged: bool)
    requires Inv(base, s) && Step(s, Commit(id, acknowledged)) != s
    ensures var t := Step(s, Commit(id, acknowledged));
      var n := Reserved(s.row) + 1;
      && id in s.calls && s.holder == Some(id) && t.holder.None?
      && t.row.Some? && Reserved(t.row) == n && base < n <= s.calls[id].limit
      && t.calls == s.calls[id := Call(s.calls[id].limit, Outcome(n, acknowledged))]
  {
    hide SpentCalls, DistinctOutcomes;
    assert CallOk(base, s.row, s.holder, id, s.calls[id]);
  }

  /** A commit raises the counter by one and releases the lock; every other call
      only sees a larger counter. */
  lemma CommitKeepsInv(base: int, s: State, id: nat, acknowledged: bool)
    requires Inv(base, s)
    ensures Inv(base, Step(s, Commit(id, acknowledged)))
  {
    var t := Step(s, Commit(id, acknowledged));
    if t != s {
      CommitEffect(base, s, id, acknowledged);
      CommitCounts(s, id, acknowledged);
      hide SpentCalls, Step;
      forall other | other in t.calls
        ensures CallOk(base, t.row, t.holder, other, t.calls[other])
        ensures other != id && Spent(t.calls[other].phase) ==> Ordinal(t.calls[other].phase) < Reserved(t.row)
      {
        assert other != id ==> CallOk(base, s.row, s.holder, other, s.calls[other]);
      }
    }
  }

  lemma PhaseMoves(base: int, s: State, id: nat, phase: Phase, holder: Option<nat>)
    requires Inv(base, s) && id in s.calls && !Spent(phase) && !Spent(s.calls[id].phase)
    requires CallOk(base, s.row, holder, id, s.calls[id].(phase := phase))
    requires holder == s.holder || (holder == Some(id) && s.holder.None?) || (holder.None? && s.holder == Some(id))
    ensures Inv(base, Put(s, id, phase).(holder := holder))
  {
    var t := Put(s, id, phase).(holder := holder);
    SameSpent(s, t);
    hide SpentCalls;
    forall other | other in t.calls
      ensures CallOk(base, t.row, t.holder, other, t.calls[other])
    {
      assert other != id ==> CallOk(base, s.row, s.holder, other, s.calls[other]);
    }
  }

  lemma RollupKeepsInv(base: int, s: State, clicks: int)
    requires Inv(base, s)
    ensures Inv(base, Step(s, Rollup(clicks)))
  {
    SameSpent(s, Step(s, Rollup(clicks)));
    hide SpentCalls;
  }

  lemma BeginKeepsInv(base: int, s: State, id: nat, limit: int)
    requires Inv(base, s)
    ensures Inv(base, Step(s, Begin(id, limit)))
  {
    SameSpent(s, Step(s, Begin(id, limit)));
    hide SpentCalls;
  }

  lemma OtherKeepInv(base: int, s: State, e: Event)
    requires Inv(base, s) && !e.Commit?
    ensures Inv(base, Step(s, e))
  {
    hide SpentCalls, DistinctOutcomes;
    var t := Step(s, e);
    if e.Begin? {
      BeginKeepsInv(base, s, e.id, e.limit);
    } else if e.Rollup? {
      RollupKeepsInv(base, s, e.clicks);
    } else if t != s {
      assert CallOk(base, s.row, s.holder, e.id, s.calls[e.id]);
      PhaseMoves(base, s, e.id, t.calls[e.id].phase, t.holder);
    }
  }

  lemma {:induction false} RunInv(start: Option<Row>, events: seq<Event>)
    ensures Inv(Reserved(start), Run(start, events))
  {
    if events == [] {
      assert SpentCalls(Run(start, events)) == {};
    } else {
      var n := |events| - 1;
      RunInv(start, events[..n]);
      var s := Run(start, events[..n]);
      match events[n] {
        case Commit(id, acknowledged) => CommitKeepsInv(Reserved(start), s, id, acknowledged);
        case _ => OtherKeepInv(Reserved(start), s, events[n]);
      }
    }
  }

  lemma {:induction false} DistinctOrdinals(calls: map<nat, Call>, ids: set<nat>) returns (ordinals: set<int>)
    requires forall id <- ids :: id in calls && Spent(calls[id].phase)
    requires forall a <- ids, b <- ids :: a != b ==> Ordinal(calls[a].phase) != Ordinal(calls[b].phase)
    ensures |ordinals| == |ids|
    ensures forall n <- ordinals :: exists id <- ids :: Ordinal(calls[id].phase) == n
    decreases ids
  {
    if ids == {} {
      ordinals := {};
    } else {
      var id :| id in ids;
      var rest := DistinctOrdinals(calls, ids - {id});
      ordinals := rest + {Ordinal(calls[id].phase)};
      assert Ordinal(calls[id].phase) !in rest;
    }
  }

  /** The counter is what was reserved before, plus the grants, plus the grants whose
      answer was lost; and whatever limits the calls carried, those with a limit of at most
      L used at most L - base, lost answers included. */
  lemma GrantsStayWithinLimit(start: Option<Row>, events: seq<Event>, limit: int, ids: set<nat>)
    requires ids == set id <- Run(start, events).calls |
      Spent(Run(start, events).calls[id].phase) && Run(start, events).calls[id].limit <= limit
    ensures var s := Run(start, events);
      Reserved(s.row) == Reserved(start) + |GrantedCalls(s)| + |LostCalls(s)|
    ensures |ids| <= Max(0, limit - Reserved(start))
  {
    hide Run, SpentCalls, GrantedCalls, LostCalls;
    var base, s := Reserved(start), Run(start, events);
    RunInv(start, events);
    SpentIsGrantedOrLost(s);
    var ordinals := DistinctOrdinals(s.calls, ids);
    var top := Max(base, limit);
    SubsetSize(ordinals, Range(base + 1, top + 1));
  }

  function Clicks(row: Option<Row>): int {
    if row.Some? then row.value.clicks else 0
  }

  /** The two counts of a row stay out of each other's way: a rollup that finds no lock sets
      the clicks and no reservation, and nothing else changes the clicks. */
  lemma ReservingLeavesClicks(start: Option<Row>, events: seq<Event>, e: Event)
    ensures var s, t := Run(start, events), Run(start, events + [e]);
      if e.Rollup? && s.holder.None? then Clicks(t.row) == e.clicks && Reserved(t.row) == Reserved(s.row)
      else Clicks(t.row) == Clicks(s.row)
  {
    hide Run, SpentCalls, DistinctOutcomes;
    RunInv(start, events);
    RunSnoc(start, events, e);
    var s := Run(start, events);
    match e
    case Commit(id, _) => assert id in s.calls ==> CallOk(Reserved(start), s.row, s.holder, id, s.calls[id]);
    case _ =>
  }

  lemma RunSnoc(start: Option<Row>, events: seq<Event>, e: Event)
    ensures Run(start, events + [e]) == Step(Run(start, events), e)
  {
    assert (events + [e])[..|events|] == events;
  }

  /** An aborted statement leaves the row as it was and gives up its lock. */
  lemma AbortLeavesNothing(start: Option<Row>, events: seq<Event>, id: nat)
    requires var s := Run(start, events);
      id in s.calls && !Spent(s.calls[id].phase) && !s.calls[id].phase.Refused?
    ensures var s, t := Run(start, events), Run(start, events + [Abort(id)]);
      && t.row == s.row && t.calls == s.calls[id := Call(s.calls[id].limit, Aborted)]
      && t.holder == if s.holder == Some(id) then None else s.holder
  {
    hide Run;
    RunSnoc(start, events, Abort(id));
  }

  /** A call carries the limit it was begun with. */
  lemma {:induction false} CallKeepsItsLimit(start: Option<Row>, events: seq<Event>, k: nat)
    requires k < |events| && events[k].Begin?
    requires forall j :: 0 <= j < k && events[j].Begin? ==> events[j].id != events[k].id
    ensures var id := events[k].id;
      id in Run(start, events).calls && Run(start, events).calls[id].limit == events[k].limit
  {
    var n := |events| - 1;
    if k < n {
      CallKeepsItsLimit(start, events[..n], k);
    } else {
      UnbegunIsAbsent(start, events[..n], events[k].id);
    }
  }

  lemma {:induction false} UnbegunIsAbsent(start: Option<Row>, events: seq<Event>, id: nat)
    requires forall j :: 0 <= j < |events| && events[j].Begin? ==> events[j].id != id
    ensures id !in Run(start, events).calls
  {
    if events != [] {
      UnbegunIsAbsent(start, events[..|events| - 1], id);
    }
  }

  /** The call's statement has ended without aborting. */
  predicate Ended(p: Phase) {
    Spent(p) || p.Refused?
  }

  /** Calls that all carry one limit and have all ended: of n of them exactly
      min(n, limit - base) were granted, but for the lost answers; none was refused with
      room left. */
  lemma ExactlyTheLimitIsGranted(start: Option<Row>, events: seq<Event>, limit: int)
    requires Reserved(start) >= 0
    requires forall c <- Run(start, events).calls.Values :: c.limit == limit && Ended(c.phase)
    ensures var s := Run(start, events);
      var room := Max(0, limit - Reserved(start));
      |GrantedCalls(s)| + |LostCalls(s)| == if |s.calls| < room then |s.calls| else room
  {
    var base, s := Reserved(start), Run(start, events);
    RunInv(start, events);
    var spent := SpentCalls(s);
    forall id | id in s.calls
      ensures s.calls[id].limit == limit && Ended(s.calls[id].phase)
    {
      assert s.calls[id] in s.calls.Values;
    }
    SpentIsGrantedOrLost(s);
    GrantsStayWithinLimit(start, events, limit, spent);
    SubsetSize(spent, s.calls.Keys);
    if spent != s.calls.Keys {
      var id :| id in s.calls && id !in spent;
      assert s.calls[id].phase.Refused?;
      assert limit < 1 || limit <= Reserved(s.row);
    }
  }
}
