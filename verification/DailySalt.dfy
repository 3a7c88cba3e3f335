/** The day's salt, agreed between instances through the salts table: each instance
    caches it and collapses concurrent requests onto one load, and each load reads,
    inserts when absent and reads again. */
module DailySalt {
  import opened Options

  /* One call, start to end. */

  /** The daily_salts table; a row is never changed once it is there. */
  class SaltTable {
    var rows: map<string, string>

    constructor (rows: map<string, string>)
      ensures this.rows == rows
    {
      this.rows := rows;
    }

    method InsertIfAbsent(day: string, salt: string)
      modifies this
      ensures rows == if day in old(rows) then old(rows) else old(rows)[day := salt]
    {
      if day !in rows {
        rows := rows[day := salt];
      }
    }
  }

  /** No row that was there has changed. */
  predicate Keeps(before: map<string, string>, after: map<string, string>) {
    forall day <- before :: day in after && after[day] == before[day]
  }

  class PostgresSaltSource {
    const table: SaltTable
    var cachedDay: Option<string>
    var cachedSalt: Option<string>

    constructor (table: SaltTable)
      ensures this.table == table && Valid()
    {
      this.table := table;
      cachedDay, cachedSalt := None, None;
    }

    /** A cached salt is the table's salt of the cached day. */
    ghost predicate Valid()
      reads this, table
    {
      && (cachedDay.Some? <==> cachedSalt.Some?)
      && (cachedDay.Some? ==> cachedDay.value in table.rows && table.rows[cachedDay.value] == cachedSalt.value)
    }

    /** The load: `rival` is another instance's salt for the day, landing between the
        first read and the insert. */
    method Load(day: string, generated: string, rival: Option<string>) returns (salt: string)
      modifies table
      ensures Keeps(old(table.rows), table.rows)
      ensures day in table.rows && salt == table.rows[day]
      ensures day in old(table.rows) ==> table.rows == old(table.rows)
      ensures day !in old(table.rows) ==> salt == rival.GetOr(generated)
    {
      if day in table.rows {
        return table.rows[day];
      }
      if rival.Some? {
        table.InsertIfAbsent(day, rival.value);
      }
      table.InsertIfAbsent(day, generated);
      return if day in table.rows then table.rows[day] else generated;
    }

    /** A call that finds no load in flight: it answers the day's shared salt and
        caches it, and a cached day costs no query. */
    method Today(day: string, generated: string, rival: Option<string>) returns (salt: string)
      requires Valid()
      modifies this, table
      ensures Valid()
      ensures Keeps(old(table.rows), table.rows)
      ensures day in table.rows && salt == table.rows[day]
      ensures cachedDay == Some(day) && cachedSalt == Some(salt)
      ensures old(cachedDay) == Some(day) && salt != "" ==> table.rows == old(table.rows)
    {
      if cachedDay == Some(day) && cachedSalt.Some? && cachedSalt.value != "" {
        return cachedSalt.value;
      }
      salt := Load(day, generated, rival);
      cachedDay, cachedSalt := Some(day), Some(salt);
    }
  }

  /* Many instances, many callers. */

  datatype LoadPhase = Reading | Inserting(own: string) | Rereading(own: string)

  datatype Load = Load(day: string, phase: LoadPhase)

  /** One instance: the cached pair and the load in flight, if any. */
  datatype Instance = Instance(cachedDay: Option<string>, cachedSalt: Option<string>, inFlight: Option<Load>)

  /** A call of `today`: the day the caller saw and the day of the load, or of the
      cache entry, that answers it. */
  datatype Call =
    | Joined(instance: nat, day: string, loadDay: string)
    | Answered(day: string, loadDay: string, salt: string)
    | Failed

  datatype State = State(table: map<string, string>, instances: map<nat, Instance>, calls: map<nat, Call>)

  datatype Event =
    | Today(call: nat, instance: nat, day: string)
    | Read(instance: nat, generated: string)
    | Insert(instance: nat)
    | Reread(instance: nat)
    | LoadFails(instance: nat)

  const IDLE := Instance(None, None, None)

  predicate Cached(i: Instance, day: string) {
    i.cachedDay == Some(day) && i.cachedSalt.Some? && i.cachedSalt.value != ""
  }

  function Called(s: State, call: nat, id: nat, day: string): State {
    if call in s.calls then s
    else
      var i := if id in s.instances then s.instances[id] else IDLE;
      if Cached(i, day) then
        s.(calls := s.calls[call := Answered(day, day, i.cachedSalt.value)])
      else
        var load := if i.inFlight.Some? then i.inFlight.value else Load(day, Reading);
        s.(instances := s.instances[id := i.(inFlight := Some(load))],
           calls := s.calls[call := Joined(id, day, load.day)])
  }

  predicate InPhase(s: State, id: nat) {
    id in s.instances && s.instances[id].inFlight.Some?
  }

  /** The load resolves: the instance caches the salt and every joined call gets it. */
  function Resolved(s: State, id: nat, salt: string): State
    requires InPhase(s, id)
  {
    var day := s.instances[id].inFlight.value.day;
    s.(instances := s.instances[id := Instance(Some(day), Some(salt), None)],
       calls := map c <- s.calls ::
         if s.calls[c].Joined? && s.calls[c].instance == id
         then Answered(s.calls[c].day, s.calls[c].loadDay, salt) else s.calls[c])
  }

  function SetPhase(s: State, id: nat, phase: LoadPhase): State
    requires InPhase(s, id)
  {
    s.(instances := s.instances[id :=
      s.instances[id].(inFlight := Some(s.instances[id].inFlight.value.(phase := phase)))])
  }

  function Step(s: State, e: Event): State {
    match e
    case Today(call, id, day) => Called(s, call, id, day)
    case Read(id, generated) =>
      if !InPhase(s, id) || !s.instances[id].inFlight.value.phase.Reading? then s
      else
        var day := s.instances[id].inFlight.value.day;
        if day in s.table then Resolved(s, id, s.table[day]) else SetPhase(s, id, Inserting(generated))
    case Insert(id) =>
      if !InPhase(s, id) || !s.instances[id].inFlight.value.phase.Inserting? then s
      else
        var load := s.instances[id].inFlight.value;
        SetPhase(s, id, Rereading(load.phase.own)).(
          table := if load.day in s.table then s.table else s.table[load.day := load.phase.own])
    case Reread(id) =>
      if !InPhase(s, id) || !s.instances[id].inFlight.value.phase.Rereading? then s
      else
        var load := s.instances[id].inFlight.value;
        Resolved(s, id, if load.day in s.table then s.table[load.day] else load.phase.own)
    case LoadFails(id) =>
      if !InPhase(s, id) then s
      else
        s.(instances := s.instances[id := s.instances[id].(inFlight := None)],
           calls := map c <- s.calls ::
             if s.calls[c].Joined? && s.calls[c].instance == id then Failed else s.calls[c])
  }

  function Run(table: map<string, string>, events: seq<Event>): State {
    if events == [] then State(table, map[], map[])
    else Step(Run(table, events[..|events| - 1]), events[|events| - 1])
  }

  predicate InstanceOk(table: map<string, string>, i: Instance) {
    && (i.cachedDay.Some? <==> i.cachedSalt.Some?)
    && (i.cachedDay.Some? ==> i.cachedDay.value in table && table[i.cachedDay.value] == i.cachedSalt.value)
    && (i.inFlight.Some? && i.inFlight.value.phase.Rereading? ==> i.inFlight.value.day in table)
  }

  predicate CallOk(s: State, c: Call) {
    match c
    case Joined(id, day, loadDay) => InPhase(s, id) && s.instances[id].inFlight.value.day == loadDay
    case Answered(day, loadDay, salt) => loadDay in s.table && s.table[loadDay] == salt
    case Failed => true
  }

  ghost predicate Inv(s: State) {
    && (forall id <- s.instances :: InstanceOk(s.table, s.instances[id]))
    && (forall c <- s.calls :: CallOk(s, s.calls[c]))
  }

  lemma StepKeepsInv(s: State, e: Event)
    requires Inv(s)
    ensures Inv(Step(s, e))
    ensures forall day <- s.table :: day in Step(s, e).table && Step(s, e).table[day] == s.table[day]
  {
    var t := Step(s, e);
    forall c | c in t.calls
      ensures CallOk(t, t.calls[c])
    {
      assert c in s.calls ==> CallOk(s, s.calls[c]);
    }
  }

  lemma {:induction false} RunInv(table: map<string, string>, events: seq<Event>)
    ensures Inv(Run(table, events))
    ensures forall day <- table :: day in Run(table, events).table && Run(table, events).table[day] == table[day]
  {
    if events != [] {
      RunInv(table, events[..|events| - 1]);
      StepKeepsInv(Run(table, events[..|events| - 1]), events[|events| - 1]);
    }
  }

  /** Every call that is answered, on whichever instance and however the loads
      interleaved, gets the one shared salt of the day its load was for; a cached salt
      is the shared salt of its cached day. */
  lemma OneSaltPerDay(table: map<string, string>, events: seq<Event>)
    ensures var s := Run(table, events);
      && (forall c <- s.calls :: s.calls[c].Answered? ==>
            s.calls[c].loadDay in s.table && s.calls[c].salt == s.table[s.calls[c].loadDay])
      && (forall a <- s.calls, b <- s.calls ::
            s.calls[a].Answered? && s.calls[b].Answered? && s.calls[a].loadDay == s.calls[b].loadDay ==>
            s.calls[a].salt == s.calls[b].salt)
      && (forall id <- s.instances :: s.instances[id].cachedDay.Some? ==>
            && s.instances[id].cachedDay.value in s.table
            && s.instances[id].cachedSalt == Some(s.table[s.instances[id].cachedDay.value]))
  {
    RunInv(table, events);
    var s := Run(table, events);
    forall c | c in s.calls
      ensures s.calls[c].Answered? ==>
        s.calls[c].loadDay in s.table && s.calls[c].salt == s.table[s.calls[c].loadDay]
    {
      assert CallOk(s, s.calls[c]);
    }
  }

  /** The instance whose load has resolved answers its day from then on without another
      load, unless the salt is empty. */
  lemma ResolvedDayIsCached(s: State, e: Event, id: nat, call: nat)
    requires Inv(s) && InPhase(s, id) && (e == Reread(id) || (e.Read? && e.instance == id))
    requires Step(s, e).instances[id].inFlight.None? && call !in s.calls
    ensures var day, t := s.instances[id].inFlight.value.day, Step(s, e);
      && day in t.table
      && (t.table[day] != "" ==>
            Step(t, Today(call, id, day)) == t.(calls := t.calls[call := Answered(day, day, t.table[day])]))
  {
    StepKeepsInv(s, e);
  }

  /** The instance is still loading another day's salt when it is asked for a day it has
      not cached. */
  predicate LoadingAnother(s: State, id: nat, day: string) {
    InPhase(s, id) && s.instances[id].inFlight.value.day != day && !Cached(s.instances[id], day)
  }

  /** The day that answers a new call is the caller's own exactly when the instance is not
      loading another; a load begun before midnight is joined by the calls made after it. */
  lemma JoinsOwnDayUnlessLoadingAnother(s: State, call: nat, id: nat, day: string)
    requires Inv(s) && call !in s.calls
    ensures var t := Called(s, call, id, day);
      && call in t.calls && !t.calls[call].Failed? && t.calls[call].day == day
      && (t.calls[call].loadDay == day <==> !LoadingAnother(s, id, day))
  {
  }

  /** A call keeps the day it asked for and the day of its load until it fails. */
  predicate SameDays(c: Call, d: Call) {
    d.Failed? || (!c.Failed? && c.day == d.day && c.loadDay == d.loadDay)
  }

  lemma StepKeepsDays(s: State, e: Event, call: nat)
    requires call in s.calls
    ensures call in Step(s, e).calls && SameDays(s.calls[call], Step(s, e).calls[call])
  {
  }

  lemma {:induction false} RunKeepsDays(table: map<string, string>, before: seq<Event>, later: seq<Event>, call: nat)
    requires call in Run(table, before).calls
    ensures call in Run(table, before + later).calls
    ensures SameDays(Run(table, before).calls[call], Run(table, before + later).calls[call])
  {
    if later == [] {
      assert before + later == before;
    } else {
      hide Step;
      var n := |later| - 1;
      RunKeepsDays(table, before, later[..n], call);
      assert before + later == before + later[..n] + [later[n]];
      RunSnoc(table, before + later[..n], later[n]);
      StepKeepsDays(Run(table, before + later[..n]), later[n], call);
    }
  }

  predicate DistinctSalts(table: map<string, string>) {
    forall a <- table, b <- table :: a != b ==> table[a] != table[b]
  }

  /** In every run a call that is answered gets the shared salt of the day its load was for,
      and that is its own day if and only if its instance was not loading another day's salt
      when it was made; where salts of different days differ, that is when it gets its own
      day's salt. */
  lemma OwnSaltUnlessLoadingAnother(table: map<string, string>, before: seq<Event>, call: nat, id: nat, day: string,
                                    later: seq<Event>)
    requires call !in Run(table, before).calls
    ensures var s, t := Run(table, before), Run(table, before + [Today(call, id, day)] + later);
      && call in t.calls
      && (t.calls[call].Answered? ==>
            && t.calls[call].day == day
            && t.calls[call].loadDay in t.table && t.calls[call].salt == t.table[t.calls[call].loadDay]
            && (t.calls[call].loadDay == day <==> !LoadingAnother(s, id, day))
            && (DistinctSalts(t.table) ==>
                  (day in t.table && t.calls[call].salt == t.table[day] <==> !LoadingAnother(s, id, day))))
  {
    hide Run, Inv, LoadingAnother;
    var asked := before + [Today(call, id, day)];
    RunInv(table, before);
    RunSnoc(table, before, Today(call, id, day));
    JoinsOwnDayUnlessLoadingAnother(Run(table, before), call, id, day);
    RunKeepsDays(table, asked, later, call);
    OneSaltPerDay(table, asked + later);
  }

  lemma RunSnoc(table: map<string, string>, events: seq<Event>, e: Event)
    ensures Run(table, events + [e]) == Step(Run(table, events), e)
  {
    assert (events + [e])[..|events|] == events;
  }

  /** A caller on the 2nd that finds the 1st's load in flight is given the 1st's salt,
      though the table holds another for the 2nd. */
  lemma YesterdaysLoadIsJoined()
    ensures var s := Run(map["02" := "b"],
        [Today(0, 7, "01"), Read(7, "a"), Today(1, 7, "02"), Insert(7), Reread(7)]);
      && 1 in s.calls && s.calls[1] == Answered("02", "01", "a")
      && "02" in s.table && s.table["02"] == "b"
  {
    hide Step;
    var table: map<string, string> := map["02" := "b"];
    var a, b, c, d, e := Today(0, 7, "01"), Read(7, "a"), Today(1, 7, "02"), Insert(7), Reread(7);
    RunSnoc(table, [], a);
    RunSnoc(table, [a], b);
    RunSnoc(table, [a, b], c);
    RunSnoc(table, [a, b, c], d);
    RunSnoc(table, [a, b, c, d], e);
    assert [] + [a] == [a] && [a] + [b] == [a, b] && [a, b] + [c] == [a, b, c];
    assert [a, b, c] + [d] == [a, b, c, d] && [a, b, c, d] + [e] == [a, b, c, d, e];
    FiveSteps(table, Step(State(table, map[], map[]), a));
  }

  lemma FiveSteps(table: map<string, string>, s1: State)
    requires table == map["02" := "b"] && s1 == Step(State(table, map[], map[]), Today(0, 7, "01"))
    ensures var s := Step(Step(Step(Step(s1, Read(7, "a")), Today(1, 7, "02")), Insert(7)), Reread(7));
      && 1 in s.calls && s.calls[1] == Answered("02", "01", "a")
      && "02" in s.table && s.table["02"] == "b"
  {
    var s2 := Step(s1, Read(7, "a"));
    assert s2.instances[7].inFlight == Some(Load("01", Inserting("a")));
    var s3 := Step(s2, Today(1, 7, "02"));
    assert s3.calls[1] == Joined(7, "02", "01");
    var s4 := Step(s3, Insert(7));
    assert s4.table["01"] == "a" && s4.table["02"] == "b";
  }
}
