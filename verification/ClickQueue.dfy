/** Draining click messages into the click table: one invocation's partial-batch
    failure report, and the queue around it with its redeliveries and dead letters. */
module ClickQueue {
  import opened Options
  import opened IntRange

  datatype Click = Click(linkId: string, visitorHash: string, occurredAt: int)

  datatype Record = Record(messageId: string, body: string)

  /** What one INSERT does: it lands, loses its partition route to a concurrent attach,
      fails for another reason, or lands although its acknowledgement is lost, which the
      caller cannot tell from failing. */
  datatype Attempt = Inserted | RouteLost | Failed | Unacknowledged

  /** The first attempt and the one retry a lost route is given. */
  datatype Attempts = Attempts(first: Attempt, second: Attempt)

  predicate Succeeds(a: Attempts) {
    a.first.Inserted? || (a.first.RouteLost? && a.second.Inserted?)
  }

  predicate LeavesRow(a: Attempts) {
    Succeeds(a) || a.first.Unacknowledged? || (a.first.RouteLost? && a.second.Unacknowledged?)
  }

  type Parser = string -> Option<Click>

  /** The insert was acknowledged. */
  predicate Acknowledged(parse: Parser, r: Record, a: Attempts) {
    parse(r.body).Some? && Succeeds(a)
  }

  /** The click is in the table. */
  predicate Lands(parse: Parser, r: Record, a: Attempts) {
    parse(r.body).Some? && LeavesRow(a)
  }

  /* One invocation. */

  function LandedClicks(parse: Parser, records: seq<Record>, attempts: seq<Attempts>): seq<Click>
    requires |attempts| == |records|
  {
    if records == [] then []
    else
      var n := |records| - 1;
      LandedClicks(parse, records[..n], attempts[..n])
      + if Lands(parse, records[n], attempts[n]) then [parse(records[n].body).value] else []
  }

  function FailedIds(parse: Parser, records: seq<Record>, attempts: seq<Attempts>): seq<string>
    requires |attempts| == |records|
  {
    if records == [] then []
    else
      var n := |records| - 1;
      FailedIds(parse, records[..n], attempts[..n])
      + if Acknowledged(parse, records[n], attempts[n]) then [] else [records[n].messageId]
  }

  /** The records that have landed and are reported all the same. */
  function DoubtfulIds(parse: Parser, records: seq<Record>, attempts: seq<Attempts>): seq<string>
    requires |attempts| == |records|
  {
    if records == [] then []
    else
      var n := |records| - 1;
      DoubtfulIds(parse, records[..n], attempts[..n])
      + if Lands(parse, records[n], attempts[n]) && !Acknowledged(parse, records[n], attempts[n])
        then [records[n].messageId] else []
  }

  class ClickTable {
    var rows: seq<Click>

    constructor ()
      ensures rows == []
    {
      rows := [];
    }

    method InsertOnce(click: Click, attempt: Attempt) returns (result: Attempt)
      modifies this
      ensures result == attempt
      ensures rows == if attempt.Inserted? || attempt.Unacknowledged? then old(rows) + [click] else old(rows)
    {
      if attempt.Inserted? || attempt.Unacknowledged? {
        rows := rows + [click];
      }
      result := attempt;
    }

    /** Retried once, and only for a lost route. */
    method InsertClickEvent(click: Click, attempts: Attempts) returns (ok: bool)
      modifies this
      ensures ok == Succeeds(attempts)
      ensures rows == if LeavesRow(attempts) then old(rows) + [click] else old(rows)
    {
      var result := InsertOnce(click, attempts.first);
      if result.RouteLost? {
        result := InsertOnce(click, attempts.second);
      }
      ok := result.Inserted?;
    }

    /** Every record on its own: the ids without an acknowledgement are reported in order,
        and the clicks that landed are appended in order. */
    method DrainClickBatch(parse: Parser, records: seq<Record>, attempts: seq<Attempts>)
      returns (failures: seq<string>)
      requires |attempts| == |records|
      modifies this
      ensures failures == FailedIds(parse, records, attempts)
      ensures rows == old(rows) + LandedClicks(parse, records, attempts)
    {
      failures := [];
      var i := 0;
      assert rows == old(rows) + [];
      while i < |records|
        invariant 0 <= i <= |records|
        invariant failures == FailedIds(parse, records[..i], attempts[..i])
        invariant rows == old(rows) + LandedClicks(parse, records[..i], attempts[..i])
      {
        assert records[..i + 1][..i] == records[..i] && attempts[..i + 1][..i] == attempts[..i];
        var click := parse(records[i].body);
        var ok := false;
        if click.Some? {
          ok := InsertClickEvent(click.value, attempts[i]);
        }
        if !ok {
          failures := failures + [records[i].messageId];
        }
        i := i + 1;
      }
      assert records[..i] == records && attempts[..i] == attempts;
    }
  }

  /** The report loses no record and counts none twice: reported and landed records are
      the batch, but for those in doubt, which are both. */
  lemma {:induction false} ReportPartitionsBatch(parse: Parser, records: seq<Record>, attempts: seq<Attempts>)
    requires |attempts| == |records|
    ensures |FailedIds(parse, records, attempts)| + |LandedClicks(parse, records, attempts)|
         == |records| + |DoubtfulIds(parse, records, attempts)|
    ensures forall i :: 0 <= i < |records| && !Acknowledged(parse, records[i], attempts[i]) ==>
      records[i].messageId in FailedIds(parse, records, attempts)
    ensures forall id <- FailedIds(parse, records, attempts) ::
      exists i :: 0 <= i < |records| && records[i].messageId == id && !Acknowledged(parse, records[i], attempts[i])
  {
    hide Acknowledged, Lands;
    if records != [] {
      var n := |records| - 1;
      ReportPartitionsBatch(parse, records[..n], attempts[..n]);
      AcknowledgedLands(parse, records[n], attempts[n]);
      forall id | id in FailedIds(parse, records[..n], attempts[..n])
        ensures exists i :: 0 <= i < |records| && records[i].messageId == id && !Acknowledged(parse, records[i], attempts[i])
      {
        var i :| 0 <= i < n && records[..n][i].messageId == id && !Acknowledged(parse, records[..n][i], attempts[..n][i]);
        assert records[i].messageId == id && !Acknowledged(parse, records[i], attempts[i]);
      }
      forall i | 0 <= i < n && !Acknowledged(parse, records[i], attempts[i])
        ensures records[i].messageId in FailedIds(parse, records[..n], attempts[..n])
      {
        assert !Acknowledged(parse, records[..n][i], attempts[..n][i]);
      }
    }
  }

  predicate Increasing(at: seq<nat>) {
    forall j, k :: 0 <= j < k < |at| ==> at[j] < at[k]
  }

  /** The marked places, in order. */
  function Places(marks: seq<bool>): (at: seq<nat>)
    ensures Increasing(at)
    ensures forall i: nat :: i in at <==> i < |marks| && marks[i]
    ensures forall k :: 0 <= k < |at| ==> at[k] < |marks|
  {
    if marks == [] then []
    else
      var n := |marks| - 1;
      if marks[n] then Places(marks[..n]) + [n] else Places(marks[..n])
  }

  function Landings(parse: Parser, records: seq<Record>, attempts: seq<Attempts>): (marks: seq<bool>)
    requires |attempts| == |records|
    ensures |marks| == |records| && forall i :: 0 <= i < |marks| ==> marks[i] == Lands(parse, records[i], attempts[i])
  {
    seq(|records|, i requires 0 <= i < |records| => Lands(parse, records[i], attempts[i]))
  }

  function Reported(parse: Parser, records: seq<Record>, attempts: seq<Attempts>): (marks: seq<bool>)
    requires |attempts| == |records|
    ensures |marks| == |records|
    ensures forall i :: 0 <= i < |marks| ==> marks[i] == !Acknowledged(parse, records[i], attempts[i])
  {
    seq(|records|, i requires 0 <= i < |records| => !Acknowledged(parse, records[i], attempts[i]))
  }

  /** The new rows are the parsed bodies of exactly the records that landed, in order. */
  lemma {:induction false} RowsAreParsedBodies(parse: Parser, records: seq<Record>, attempts: seq<Attempts>)
    requires |attempts| == |records|
    ensures var at, rows := Places(Landings(parse, records, attempts)), LandedClicks(parse, records, attempts);
      |at| == |rows| && forall k :: 0 <= k < |at| ==> parse(records[at[k]].body) == Some(rows[k])
  {
    hide LeavesRow, Increasing;
    if records != [] {
      var n := |records| - 1;
      RowsAreParsedBodies(parse, records[..n], attempts[..n]);
      assert Landings(parse, records, attempts)[..n] == Landings(parse, records[..n], attempts[..n]);
    }
  }

  /** The report is the ids of exactly the unacknowledged records, in order. */
  lemma {:induction false} ReportIsUnacknowledged(parse: Parser, records: seq<Record>, attempts: seq<Attempts>)
    requires |attempts| == |records|
    ensures var at, ids := Places(Reported(parse, records, attempts)), FailedIds(parse, records, attempts);
      |at| == |ids| && forall k :: 0 <= k < |at| ==> records[at[k]].messageId == ids[k]
  {
    hide Acknowledged, Increasing;
    if records != [] {
      var n := |records| - 1;
      ReportIsUnacknowledged(parse, records[..n], attempts[..n]);
      assert Reported(parse, records, attempts)[..n] == Reported(parse, records[..n], attempts[..n]);
    }
  }

  lemma AcknowledgedLands(parse: Parser, r: Record, a: Attempts)
    ensures Acknowledged(parse, r, a) ==> Lands(parse, r, a)
  {
  }

  /* The queue. */

  const MAX_RECEIVE_COUNT := 5
  const BATCH_SIZE := 10

  /** `Gone` is deleted through another copy while a batch still holds it. */
  datatype Place = Queued | InFlight(batch: nat) | Gone(batch: nat) | Deleted | Dead

  /** `landed` counts the rows a message has left in the table, `extras` the copies the queue
      has handed out beyond its receives. */
  datatype Message = Message(body: string, place: Place, receives: nat, landed: nat, extras: nat)

  datatype State = State(messages: map<string, Message>, batches: map<nat, seq<string>>)

  datatype Event =
    | Send(id: string, body: string)
    | Receive(batch: nat, ids: seq<string>)
    /** The invocation ends and its report is acted on. */
    | Drain(batch: nat, attempts: seq<Attempts>)
    /** The invocation dies after some records, or its report is lost: every message
        of the batch becomes visible again. */
    | Crash(batch: nat, attempts: seq<Attempts>, processed: nat)
    /** A standard queue may hand out another copy of a message that is in flight or already
        deleted; the copy is drained on its own. */
    | ExtraCopy(id: string, outcome: Attempts)
    | DeadLetter(id: string)

  predicate Distinct(ids: seq<string>) {
    forall i, j :: 0 <= i < j < |ids| ==> ids[i] != ids[j]
  }

  predicate CanReceive(s: State, batch: nat, ids: seq<string>) {
    && batch !in s.batches
    && 0 < |ids| <= BATCH_SIZE && Distinct(ids)
    && forall id <- ids :: id in s.messages && s.messages[id].place.Queued?
         && s.messages[id].receives < MAX_RECEIVE_COUNT
  }

  function RecordsOf(s: State, ids: seq<string>): seq<Record>
    requires forall id <- ids :: id in s.messages
  {
    seq(|ids|, i requires 0 <= i < |ids| => Record(ids[i], s.messages[ids[i]].body))
  }

  predicate CanFinish(s: State, batch: nat, attempts: seq<Attempts>) {
    && batch in s.batches && |attempts| == |s.batches[batch]|
    && forall id <- s.batches[batch] :: id in s.messages
  }

  /** A message of a finished batch: a row if it landed within the processed records,
      and back in the queue unless it is to be deleted. */
  function Finished(m: Message, landed: bool, keep: bool): Message {
    m.(landed := m.landed + (if landed then 1 else 0), place := if keep && !m.place.Gone? then Queued else Deleted)
  }

  /** A drained copy: its row, if it landed, and the deletion that an acknowledged one earns. */
  function Copied(parse: Parser, id: string, m: Message, attempts: Attempts): Message {
    var r := Record(id, m.body);
    m.(landed := m.landed + (if Lands(parse, r, attempts) then 1 else 0),
       extras := m.extras + 1,
       place := if Acknowledged(parse, r, attempts) && m.place.InFlight? then Gone(m.place.batch) else m.place)
  }

  function IndexIn(ids: seq<string>, id: string): (i: nat)
    requires id in ids
    ensures i < |ids| && ids[i] == id
  {
    if ids[0] == id then 0 else 1 + IndexIn(ids[1..], id)
  }

  function LandsIn(parse: Parser, s: State, ids: seq<string>, attempts: seq<Attempts>, processed: nat, id: string): bool
    requires |attempts| == |ids| && id in ids && id in s.messages
  {
    var i := IndexIn(ids, id);
    i < processed && Lands(parse, Record(id, s.messages[id].body), attempts[i])
  }

  function AcknowledgedIn(parse: Parser, s: State, ids: seq<string>, attempts: seq<Attempts>, id: string): bool
    requires |attempts| == |ids| && id in ids && id in s.messages
  {
    Acknowledged(parse, Record(id, s.messages[id].body), attempts[IndexIn(ids, id)])
  }

  function Step(parse: Parser, s: State, e: Event): State {
    match e
    case Send(id, body) =>
      if id in s.messages then s else s.(messages := s.messages[id := Message(body, Queued, 0, 0, 0)])
    case Receive(batch, ids) =>
      if !CanReceive(s, batch, ids) then s
      else State(
        map id <- s.messages :: if id in ids
          then s.messages[id].(place := InFlight(batch), receives := s.messages[id].receives + 1)
          else s.messages[id],
        s.batches[batch := ids])
    case Drain(batch, attempts) =>
      if !CanFinish(s, batch, attempts) then s
      else
        var ids := s.batches[batch];
        var failures := FailedIds(parse, RecordsOf(s, ids), attempts);
        State(
          map id <- s.messages :: if id in ids
            then Finished(s.messages[id], LandsIn(parse, s, ids, attempts, |ids|, id), id in failures)
            else s.messages[id],
          s.batches - {batch})
    case Crash(batch, attempts, processed) =>
      if !CanFinish(s, batch, attempts) then s
      else
        var ids := s.batches[batch];
        State(
          map id <- s.messages :: if id in ids
            then Finished(s.messages[id], LandsIn(parse, s, ids, attempts, processed, id), true)
            else s.messages[id],
          s.batches - {batch})
    case ExtraCopy(id, outcome) =>
      if id !in s.messages || s.messages[id].place.Queued? || s.messages[id].place.Dead? then s
      else s.(messages := s.messages[id := Copied(parse, id, s.messages[id], outcome)])
    case DeadLetter(id) =>
      if id in s.messages && s.messages[id].place.Queued? && s.messages[id].receives >= MAX_RECEIVE_COUNT
      then s.(messages := s.messages[id := s.messages[id].(place := Dead)])
      else s
  }

  function Run(parse: Parser, events: seq<Event>): State {
    if events == [] then State(map[], map[])
    else Step(parse, Run(parse, events[..|events| - 1]), events[|events| - 1])
  }

  predicate MessageOk(parse: Parser, batches: map<nat, seq<string>>, id: string, m: Message) {
    && m.receives <= MAX_RECEIVE_COUNT
    && m.landed + (if m.place.InFlight? || m.place.Gone? then 1 else 0) <= m.receives + m.extras
    && (m.landed > 0 ==> parse(m.body).Some?)
    && match m.place
       case Queued => true
       case InFlight(b) => b in batches && id in batches[b]
       case Gone(b) => b in batches && id in batches[b] && m.landed >= 1
       case Deleted => m.landed >= 1
       case Dead => m.receives == MAX_RECEIVE_COUNT
  }

  ghost predicate Inv(parse: Parser, s: State) {
    && (forall id <- s.messages :: MessageOk(parse, s.batches, id, s.messages[id]))
    && (forall b <- s.batches :: Distinct(s.batches[b]) && |s.batches[b]| <= 10
          && forall id <- s.batches[b] :: id in s.messages && s.messages[id].place in {InFlight(b), Gone(b)})
  }

  lemma DistinctIndex(ids: seq<string>, i: nat)
    requires Distinct(ids) && i < |ids|
    ensures IndexIn(ids, ids[i]) == i
  {
    var j := IndexIn(ids, ids[i]);
  }

  /** A message is left out of the report exactly when its insert was acknowledged, and
      then its click has landed; one that landed unacknowledged is reported. */
  lemma UnreportedHasLanded(parse: Parser, s: State, ids: seq<string>, attempts: seq<Attempts>, id: string)
    requires |attempts| == |ids| && Distinct(ids) && id in ids && forall x <- ids :: x in s.messages
    ensures id !in FailedIds(parse, RecordsOf(s, ids), attempts) <==> AcknowledgedIn(parse, s, ids, attempts, id)
    ensures id !in FailedIds(parse, RecordsOf(s, ids), attempts) ==> LandsIn(parse, s, ids, attempts, |ids|, id)
  {
    hide FailedIds, Acknowledged, Lands;
    var records := RecordsOf(s, ids);
    ReportPartitionsBatch(parse, records, attempts);
    var i := IndexIn(ids, id);
    assert records[i] == Record(id, s.messages[id].body);
    AcknowledgedLands(parse, records[i], attempts[i]);
    if id in FailedIds(parse, records, attempts) {
      var j :| 0 <= j < |records| && records[j].messageId == id && !Acknowledged(parse, records[j], attempts[j]);
      DistinctIndex(ids, j);
    }
  }

  lemma ReceiveKeepsInv(parse: Parser, s: State, batch: nat, ids: seq<string>)
    requires Inv(parse, s)
    ensures Inv(parse, Step(parse, s, Receive(batch, ids)))
  {
  }

  lemma DrainKeepsInv(parse: Parser, s: State, batch: nat, attempts: seq<Attempts>)
    requires Inv(parse, s)
    ensures Inv(parse, Step(parse, s, Drain(batch, attempts)))
  {
    hide FailedIds, Lands, Acknowledged;
    if CanFinish(s, batch, attempts) {
      var ids := s.batches[batch];
      var t := Step(parse, s, Drain(batch, attempts));
      forall id | id in t.messages
        ensures MessageOk(parse, t.batches, id, t.messages[id])
      {
        assert MessageOk(parse, s.batches, id, s.messages[id]);
        if id in ids {
          UnreportedHasLanded(parse, s, ids, attempts, id);
          LandingParses(parse, s, ids, attempts, |ids|, id);
        }
      }
    }
  }

  lemma CrashKeepsInv(parse: Parser, s: State, batch: nat, attempts: seq<Attempts>, processed: nat)
    requires Inv(parse, s)
    ensures Inv(parse, Step(parse, s, Crash(batch, attempts, processed)))
  {
    hide Lands;
    if CanFinish(s, batch, attempts) {
      var ids := s.batches[batch];
      var t := Step(parse, s, Crash(batch, attempts, processed));
      forall id | id in t.messages
        ensures MessageOk(parse, t.batches, id, t.messages[id])
      {
        assert MessageOk(parse, s.batches, id, s.messages[id]);
        if id in ids {
          LandingParses(parse, s, ids, attempts, processed, id);
        }
      }
    }
  }

  lemma LandingParses(parse: Parser, s: State, ids: seq<string>, attempts: seq<Attempts>, processed: nat, id: string)
    requires |attempts| == |ids| && id in ids && id in s.messages
    ensures LandsIn(parse, s, ids, attempts, processed, id) ==> parse(s.messages[id].body).Some?
  {
  }

  lemma ExtraCopyKeepsInv(parse: Parser, s: State, id: string, outcome: Attempts)
    requires Inv(parse, s)
    ensures Inv(parse, Step(parse, s, ExtraCopy(id, outcome)))
  {
    hide Lands, Acknowledged;
    if id in s.messages {
      var r := Record(id, s.messages[id].body);
      AcknowledgedLands(parse, r, outcome);
      LandedParses(parse, r, outcome);
    }
  }

  lemma LandedParses(parse: Parser, r: Record, a: Attempts)
    ensures Lands(parse, r, a) ==> parse(r.body).Some?
  {
  }

  lemma {:induction false} RunInv(parse: Parser, events: seq<Event>)
    ensures Inv(parse, Run(parse, events))
  {
    if events != [] {
      var n := |events| - 1;
      RunInv(parse, events[..n]);
      var s := Run(parse, events[..n]);
      match events[n] {
        case Receive(batch, ids) => ReceiveKeepsInv(parse, s, batch, ids);
        case Drain(batch, attempts) => DrainKeepsInv(parse, s, batch, attempts);
        case Crash(batch, attempts, processed) => CrashKeepsInv(parse, s, batch, attempts, processed);
        case ExtraCopy(id, outcome) => ExtraCopyKeepsInv(parse, s, id, outcome);
        case _ =>
      }
    }
  }

  lemma RunSnoc(parse: Parser, events: seq<Event>, e: Event)
    ensures Run(parse, events + [e]) == Step(parse, Run(parse, events), e)
  {
    assert (events + [e])[..|events|] == events;
  }

  /** A finished invocation settles its batch: an acknowledged message is deleted, one that
      is reported goes back to the queue unless another copy's acknowledgement has deleted
      it, each has one row more exactly if its own record landed, and no message outside the
      batch is touched. */
  lemma DrainSettlesBatch(parse: Parser, events: seq<Event>, batch: nat, attempts: seq<Attempts>, i: nat)
    requires var s := Run(parse, events); batch in s.batches && |attempts| == |s.batches[batch]| && i < |attempts|
    ensures var s, t := Run(parse, events), Run(parse, events + [Drain(batch, attempts)]);
      var id := s.batches[batch][i];
      && id in s.messages && id in t.messages && batch !in t.batches
      && var m, r := s.messages[id], Record(id, s.messages[id].body);
      && t.messages[id] == m.(
           landed := m.landed + (if Lands(parse, r, attempts[i]) then 1 else 0),
           place := if Acknowledged(parse, r, attempts[i]) || m.place.Gone? then Deleted else Queued)
      && forall other <- s.messages :: other !in s.batches[batch] ==>
           other in t.messages && t.messages[other] == s.messages[other]
  {
    hide Run, Lands, Acknowledged, FailedIds;
    RunInv(parse, events);
    RunSnoc(parse, events, Drain(batch, attempts));
    var s := Run(parse, events);
    var ids := s.batches[batch];
    DistinctIndex(ids, i);
    UnreportedHasLanded(parse, s, ids, attempts, ids[i]);
  }

  /** An invocation that dies gives its whole batch back, but for what another copy's
      acknowledgement has deleted; only the records it got to can have left a row. */
  lemma CrashReturnsBatch(parse: Parser, events: seq<Event>, batch: nat, attempts: seq<Attempts>, processed: nat, i: nat)
    requires var s := Run(parse, events); batch in s.batches && |attempts| == |s.batches[batch]| && i < |attempts|
    ensures var s, t := Run(parse, events), Run(parse, events + [Crash(batch, attempts, processed)]);
      var id := s.batches[batch][i];
      && id in s.messages && id in t.messages && batch !in t.batches
      && var m, r := s.messages[id], Record(id, s.messages[id].body);
      && t.messages[id] == m.(
           landed := m.landed + (if i < processed && Lands(parse, r, attempts[i]) then 1 else 0),
           place := if m.place.Gone? then Deleted else Queued)
  {
    hide Run, Lands, FailedIds;
    RunInv(parse, events);
    RunSnoc(parse, events, Crash(batch, attempts, processed));
    DistinctIndex(Run(parse, events).batches[batch], i);
  }

  /** An extra copy of a message that is in flight or deleted leaves a row exactly if its
      own insert lands, and deletes the message exactly if that insert is acknowledged. */
  lemma CopySettles(parse: Parser, events: seq<Event>, id: string, outcome: Attempts)
    requires var s := Run(parse, events); id in s.messages && (s.messages[id].place.InFlight? || s.messages[id].place.Deleted?)
    ensures var m, r := Run(parse, events).messages[id], Record(id, Run(parse, events).messages[id].body);
      var t := Run(parse, events + [ExtraCopy(id, outcome)]);
      && id in t.messages && t.messages[id].extras == m.extras + 1
      && t.messages[id].landed == m.landed + (if Lands(parse, r, outcome) then 1 else 0)
      && (m.place.InFlight? ==>
            t.messages[id].place == if Acknowledged(parse, r, outcome) then Gone(m.place.batch) else m.place)
      && (m.place.Deleted? ==> t.messages[id].place.Deleted?)
  {
    hide Run, Lands, Acknowledged;
    RunSnoc(parse, events, ExtraCopy(id, outcome));
  }

  /** In every reachable state every sent click is queued, in flight, in the table or,
      after exactly five receives, in the dead-letter queue; it is in the table at
      most once per receive and extra copy, and a body that does not parse never is. */
  lemma NoClickIsLost(parse: Parser, events: seq<Event>, id: string)
    requires id in Run(parse, events).messages
    ensures var m := Run(parse, events).messages[id];
      && (m.place.Queued? || m.place.InFlight? || m.landed >= 1 || (m.place.Dead? && m.receives == 5))
      && (m.place.Deleted? ==> m.landed >= 1)
      && (m.place.Dead? ==> m.receives == 5)
      && m.landed <= m.receives + m.extras && m.receives <= 5
      && (parse(m.body).None? ==> m.landed == 0 && !m.place.Deleted?)
  {
    RunInv(parse, events);
  }

  /** A message stays, with the body it was first sent with. */
  lemma {:induction false} SentStays(parse: Parser, events: seq<Event>, k: nat)
    requires k < |events| && events[k].Send?
    requires forall j :: 0 <= j < k && events[j].Send? ==> events[j].id != events[k].id
    ensures var id := events[k].id;
      id in Run(parse, events).messages && Run(parse, events).messages[id].body == events[k].body
  {
    hide FailedIds, LandsIn, Acknowledged, Lands;
    var n := |events| - 1;
    if k < n {
      SentStays(parse, events[..n], k);
    } else {
      UnsentIsAbsent(parse, events[..n], events[k].id);
    }
  }

  lemma {:induction false} UnsentIsAbsent(parse: Parser, events: seq<Event>, id: string)
    requires forall j :: 0 <= j < |events| && events[j].Send? ==> events[j].id != id
    ensures id !in Run(parse, events).messages
  {
    hide FailedIds, LandsIn, Acknowledged, Lands;
    if events != [] {
      UnsentIsAbsent(parse, events[..|events| - 1], id);
    }
  }

  /* Termination. */

  /** One slot per message and receive. */
  function UsedSlots(s: State): set<(string, int)> {
    set id <- s.messages, i <- Range(0, s.messages[id].receives) :: (id, i)
  }

  /** How many deliveries a run has made. */
  function Deliveries(parse: Parser, events: seq<Event>): nat {
    if events == [] then 0
    else
      var n := |events| - 1;
      Deliveries(parse, events[..n])
      + if events[n].Receive? && CanReceive(Run(parse, events[..n]), events[n].batch, events[n].ids) then 1 else 0
  }

  lemma {:induction false} OwnSlots(id: string, n: nat, slots: set<(string, int)>)
    requires forall p <- slots :: p.0 == id && 0 <= p.1 < n
    ensures |slots| <= n
  {
    if n == 0 {
      assert slots == {};
    } else {
      var last := (id, n - 1);
      OwnSlots(id, n - 1, slots - {last});
      SubsetSize(slots, (slots - {last}) + {last});
    }
  }

  lemma {:induction false} SlotsBound(ids: set<string>, slots: set<(string, int)>)
    requires forall p <- slots :: p.0 in ids && 0 <= p.1 < MAX_RECEIVE_COUNT
    ensures |slots| <= MAX_RECEIVE_COUNT * |ids|
    decreases ids
  {
    if ids == {} {
      assert slots == {};
    } else {
      var id :| id in ids;
      var own := set p <- slots | p.0 == id;
      SlotsBound(ids - {id}, slots - own);
      assert slots == (slots - own) + own;
      OwnSlots(id, MAX_RECEIVE_COUNT, own);
    }
  }

  lemma SlotsGrow(parse: Parser, s: State, e: Event)
    ensures UsedSlots(s) <= UsedSlots(Step(parse, s, e))
    ensures e.Receive? && CanReceive(s, e.batch, e.ids) ==>
      (e.ids[0], s.messages[e.ids[0]].receives) in UsedSlots(Step(parse, s, e)) - UsedSlots(s)
  {
    hide FailedIds, LandsIn;
  }

  lemma {:induction false} DeliveriesUseSlots(parse: Parser, events: seq<Event>)
    ensures Deliveries(parse, events) <= |UsedSlots(Run(parse, events))|
  {
    if events != [] {
      var n := |events| - 1;
      DeliveriesUseSlots(parse, events[..n]);
      var s, t := Run(parse, events[..n]), Run(parse, events);
      SlotsGrow(parse, s, events[n]);
      if events[n].Receive? && CanReceive(s, events[n].batch, events[n].ids) {
        var slot := (events[n].ids[0], s.messages[events[n].ids[0]].receives as int);
        SubsetSize(UsedSlots(s) + {slot}, UsedSlots(t));
      } else {
        SubsetSize(UsedSlots(s), UsedSlots(t));
      }
    }
  }

  /** Redelivery ends: extra copies aside, a run delivers at most five batches per message
      sent. */
  lemma DeliveriesAreBounded(parse: Parser, events: seq<Event>)
    ensures Deliveries(parse, events) <= 5 * |Run(parse, events).messages|
  {
    var s := Run(parse, events);
    RunInv(parse, events);
    DeliveriesUseSlots(parse, events);
    SlotsBound(s.messages.Keys, UsedSlots(s));
  }
}
