/** The salt loaded through the shared cache store, whose set is last-write-wins and whose
    reads may miss the latest sets. One cold day: each load reads, sets its own salt when
    the key is absent, and reads again, or dies on the way. A salt is named by the load that
    generated it, so no two are equal. */
module SharedStoreSalt {
  import opened Options

  datatype Phase = Reading | Setting | Rereading | Answered(salt: nat) | Died

  /** `past` holds every salt set for the key, the latest last; `firstAt` how many there were
      at the first answer. `lateAnswer`: some load answered after a set that came after the
      first answer. `stale`: some read missed a set. */
  datatype State = State(past: seq<nat>, loads: map<nat, Phase>, firstAt: Option<nat>, lateAnswer: bool, stale: bool)

  /** A read sees the first `version` sets, or all there are if that is fewer. */
  datatype Event =
    | Begin(load: nat)
    | Get(load: nat, version: nat)
    | Set(load: nat)
    | Reread(load: nat, version: nat)
    | Die(load: nat)

  function Seen(past: seq<nat>, version: nat): Option<nat> {
    if version == 0 || past == [] then None
    else Some(past[(if version < |past| then version else |past|) - 1])
  }

  /** Some salt was set after the first answer. */
  predicate LateSet(s: State) {
    s.firstAt.Some? && s.firstAt.value < |s.past|
  }

  function Answer(s: State, i: nat, salt: nat): State {
    s.(loads := s.loads[i := Answered(salt)],
       firstAt := if s.firstAt.Some? then s.firstAt else Some(|s.past|),
       lateAnswer := s.lateAnswer || LateSet(s))
  }

  function Step(s: State, e: Event): State {
    match e
    case Begin(i) => if i in s.loads then s else s.(loads := s.loads[i := Reading])
    case Get(i, version) =>
      if i !in s.loads || !s.loads[i].Reading? then s
      else
        var seen := Seen(s.past, version);
        (if seen.Some? then Answer(s, i, seen.value) else s.(loads := s.loads[i := Setting])).(
          stale := s.stale || version < |s.past|)
    case Set(i) =>
      if i !in s.loads || !s.loads[i].Setting? then s
      else s.(past := s.past + [i], loads := s.loads[i := Rereading])
    case Reread(i, version) =>
      if i !in s.loads || !s.loads[i].Rereading? then s
      else Answer(s, i, Seen(s.past, version).GetOr(i)).(stale := s.stale || version < |s.past|)
    case Die(i) =>
      if i !in s.loads || s.loads[i].Answered? then s else s.(loads := s.loads[i := Died])
  }

  const COLD := State([], map[], None, false, false)

  function Run(events: seq<Event>): State {
    if events == [] then COLD
    else Step(Run(events[..|events| - 1]), events[|events| - 1])
  }

  /** The loads that have answered have answered one salt. */
  predicate AllAgree(s: State) {
    forall i <- s.loads, j <- s.loads :: s.loads[i].Answered? && s.loads[j].Answered? ==> s.loads[i] == s.loads[j]
  }

  predicate AllAnswered(s: State) {
    forall i <- s.loads :: s.loads[i].Answered?
  }

  /* What every run keeps. */

  /** The load has put its salt in the store. */
  predicate HasSet(s: State, i: nat) {
    i in s.loads && !s.loads[i].Reading? && !s.loads[i].Setting?
  }

  /** Each load sets at most once, and every answer is a salt that has been set. */
  ghost predicate Inv(s: State) {
    && (forall i, j :: 0 <= i < j < |s.past| ==> s.past[i] != s.past[j])
    && (forall k :: 0 <= k < |s.past| ==> HasSet(s, s.past[k]))
    && (forall i <- s.loads :: s.loads[i].Rereading? ==> i in s.past)
    && (forall i <- s.loads :: s.loads[i].Answered? ==> s.loads[i].salt in s.past)
  }

  lemma SeenWasSet(past: seq<nat>, version: nat)
    ensures Seen(past, version).Some? ==> Seen(past, version).value in past
  {
  }

  lemma SetKeepsInv(s: State, i: nat)
    requires Inv(s)
    ensures Inv(Step(s, Set(i)))
  {
    var t := Step(s, Set(i));
    if t != s {
      assert i !in s.past;
      assert forall x :: x in t.past <==> x in s.past || x == i;
    }
  }

  lemma StepKeepsInv(s: State, e: Event)
    requires Inv(s)
    ensures Inv(Step(s, e))
  {
    hide Seen;
    match e
    case Begin(_) =>
    case Get(_, version) => SeenWasSet(s.past, version);
    case Set(i) => SetKeepsInv(s, i);
    case Reread(_, version) => SeenWasSet(s.past, version);
    case Die(_) =>
  }

  lemma {:induction false} RunInv(events: seq<Event>)
    ensures Inv(Run(events))
  {
    if events != [] {
      RunInv(events[..|events| - 1]);
      StepKeepsInv(Run(events[..|events| - 1]), events[|events| - 1]);
    }
  }

  /** A load that has died stays silent, whatever follows. */
  lemma {:induction false} DeadStaySilent(before: seq<Event>, i: nat, later: seq<Event>)
    requires i in Run(before).loads && !Run(before).loads[i].Answered?
    ensures i in Run(before + [Die(i)] + later).loads && Run(before + [Die(i)] + later).loads[i] == Died
  {
    var events := before + [Die(i)];
    if later == [] {
      assert events + later == events && events[..|before|] == before;
    } else {
      var n := |later| - 1;
      DeadStaySilent(before, i, later[..n]);
      assert (events + later)[..|events| + n] == events + later[..n];
    }
  }

  /* Reads that see the last set. */

  /** A load has answered the salt at that place. */
  ghost predicate AnsweredAt(s: State, k: nat) {
    k < |s.past| && exists i :: i in s.loads && s.loads[i] == Answered(s.past[k])
  }

  /** The first answer was the last salt of its time; answers are later salts only once some
      load has answered late, and a load that set late has answered late if it has. */
  ghost predicate FreshInv(s: State) {
    && (s.firstAt.None? ==> !s.lateAnswer && forall i <- s.loads :: !s.loads[i].Answered?)
    && (s.firstAt.Some? ==>
          && 1 <= s.firstAt.value <= |s.past|
          && AnsweredAt(s, s.firstAt.value - 1)
          && (!s.lateAnswer ==> forall i <- s.loads :: s.loads[i].Answered? ==> s.loads[i].salt == s.past[s.firstAt.value - 1])
          && (s.lateAnswer ==> exists k: nat :: s.firstAt.value <= k && AnsweredAt(s, k))
          && (forall k :: s.firstAt.value <= k < |s.past| && s.past[k] in s.loads && s.loads[s.past[k]].Answered? ==>
                s.lateAnswer))
  }

  lemma FreshSees(past: seq<nat>, version: nat)
    requires version >= |past| && past != []
    ensures Seen(past, version) == Some(past[|past| - 1])
  {
  }

  lemma AnswersStay(s: State, t: State, k: nat)
    requires AnsweredAt(s, k) && s.past <= t.past
    requires forall i :: i in s.loads && s.loads[i].Answered? ==> i in t.loads && t.loads[i] == s.loads[i]
    ensures AnsweredAt(t, k)
  {
    var i :| i in s.loads && s.loads[i] == Answered(s.past[k]);
    assert t.past[k] == s.past[k] && t.loads[i] == Answered(t.past[k]);
  }

  /** An answer that sees the last set. */
  lemma AnswerKeepsFresh(s: State, i: nat)
    requires Inv(s) && FreshInv(s) && s.past != [] && i in s.loads
    requires s.loads[i].Reading? || s.loads[i].Rereading?
    ensures FreshInv(Answer(s, i, s.past[|s.past| - 1]))
  {
    hide HasSet;
    var last := |s.past| - 1;
    var t := Answer(s, i, s.past[last]);
    assert t.loads[i] == Answered(t.past[last]) && AnsweredAt(t, last);
    if s.firstAt.Some? {
      AnswersStay(s, t, s.firstAt.value - 1);
      if s.lateAnswer {
        var k: nat :| s.firstAt.value <= k && AnsweredAt(s, k);
        AnswersStay(s, t, k);
      }
    }
  }

  lemma QuietKeepsFresh(s: State, t: State)
    requires FreshInv(s) && s.past <= t.past && s.firstAt == t.firstAt && s.lateAnswer == t.lateAnswer
    requires forall i :: i in s.loads && s.loads[i].Answered? <==> i in t.loads && t.loads[i].Answered?
    requires forall i :: i in s.loads && s.loads[i].Answered? ==> t.loads[i] == s.loads[i]
    requires forall k :: |s.past| <= k < |t.past| ==> t.past[k] in t.loads && !t.loads[t.past[k]].Answered?
    ensures FreshInv(t)
  {
    if s.firstAt.Some? {
      AnswersStay(s, t, s.firstAt.value - 1);
      if s.lateAnswer {
        var k: nat :| s.firstAt.value <= k && AnsweredAt(s, k);
        AnswersStay(s, t, k);
      }
    }
  }

  lemma WriteKeepsFresh(s: State, e: Event)
    requires Inv(s) && FreshInv(s) && (e.Begin? || e.Set? || e.Die?)
    ensures FreshInv(Step(s, e))
  {
    hide FreshInv;
    QuietKeepsFresh(s, Step(s, e));
  }

  lemma GetKeepsFresh(s: State, i: nat, version: nat)
    requires Inv(s) && FreshInv(s) && !Step(s, Get(i, version)).stale
    ensures FreshInv(Step(s, Get(i, version)))
  {
    hide FreshInv, Inv, Seen;
    var t := Step(s, Get(i, version));
    if s.past == [] {
      NothingSeen(version);
      QuietKeepsFresh(s, t);
    } else if t != s {
      FreshSees(s.past, version);
      AnswerKeepsFresh(s, i);
      StaleDoesNotMatter(Answer(s, i, s.past[|s.past| - 1]), t);
    }
  }

  lemma NothingSeen(version: nat)
    ensures Seen([], version).None?
  {
  }

  lemma RereadKeepsFresh(s: State, i: nat, version: nat)
    requires Inv(s) && FreshInv(s) && !Step(s, Reread(i, version)).stale
    ensures FreshInv(Step(s, Reread(i, version)))
  {
    var t := Step(s, Reread(i, version));
    if t != s {
      assert i in s.past;
      hide FreshInv, Inv, Seen;
      FreshSees(s.past, version);
      AnswerKeepsFresh(s, i);
      StaleDoesNotMatter(Answer(s, i, s.past[|s.past| - 1]), t);
    }
  }

  lemma FreshStep(s: State, e: Event)
    requires Inv(s) && FreshInv(s) && !Step(s, e).stale
    ensures FreshInv(Step(s, e))
  {
    hide FreshInv, Inv, Step;
    match e
    case Get(i, version) => GetKeepsFresh(s, i, version);
    case Reread(i, version) => RereadKeepsFresh(s, i, version);
    case _ => WriteKeepsFresh(s, e);
  }

  lemma StaleDoesNotMatter(s: State, t: State)
    requires FreshInv(s) && t == s.(stale := t.stale)
    ensures FreshInv(t)
  {
    QuietKeepsFresh(s, t);
  }

  lemma {:induction false} FreshRun(events: seq<Event>)
    requires !Run(events).stale
    ensures FreshInv(Run(events))
  {
    if events != [] {
      hide Step, FreshInv, Inv;
      var before := Run(events[..|events| - 1]);
      StaleStays(before, events[|events| - 1]);
      FreshRun(events[..|events| - 1]);
      RunInv(events[..|events| - 1]);
      FreshStep(before, events[|events| - 1]);
    }
  }

  lemma StaleStays(s: State, e: Event)
    ensures s.stale ==> Step(s, e).stale
  {
  }

  /** Wherever every read has seen the last set: at any moment the loads that have answered
      agree if and only if none of them answered after a set that came after the first
      answer. */
  lemma AgreementIffNoLateAnswer(events: seq<Event>)
    requires !Run(events).stale
    ensures AllAgree(Run(events)) <==> !Run(events).lateAnswer
  {
    hide Run, Inv;
    FreshRun(events);
    RunInv(events);
    if Run(events).lateAnswer {
      LateAnswerDiffers(Run(events));
    }
  }

  lemma LateAnswerDiffers(s: State)
    requires Inv(s) && FreshInv(s) && s.lateAnswer
    ensures !AllAgree(s)
  {
    var k: nat :| s.firstAt.value <= k && AnsweredAt(s, k);
    var early :| early in s.loads && s.loads[early] == Answered(s.past[s.firstAt.value - 1]);
    var late :| late in s.loads && s.loads[late] == Answered(s.past[k]);
    assert s.loads[early] != s.loads[late];
  }

  /** When besides no load has died and all have answered, they agree if and only if none set
      its salt after the first answer. The re-read alone does not make them converge. */
  lemma AgreementIffNoLateSet(events: seq<Event>)
    requires AllAnswered(Run(events)) && !Run(events).stale
    ensures AllAgree(Run(events)) <==> !LateSet(Run(events))
  {
    hide Run, AllAgree;
    AgreementIffNoLateAnswer(events);
    FreshRun(events);
    RunInv(events);
    LateSetAnswersLate(Run(events));
  }

  lemma LateSetAnswersLate(s: State)
    requires Inv(s) && FreshInv(s) && AllAnswered(s)
    ensures LateSet(s) <==> s.lateAnswer
  {
    if LateSet(s) {
      var last := |s.past| - 1;
      assert HasSet(s, s.past[last]);
      assert s.loads[s.past[last]].Answered?;
    }
  }

  /* Reads that may miss sets. */

  /** The same steps in the same order; only what the re-reads see may differ. */
  predicate SameButRereads(a: seq<Event>, b: seq<Event>) {
    && |a| == |b|
    && forall i :: 0 <= i < |a| ==> a[i] == b[i] || (a[i].Reread? && b[i].Reread? && a[i].load == b[i].load)
  }

  /** The two differ at most in the salts that re-reads answered. */
  predicate Alike(s: State, t: State) {
    && s.past == t.past && s.loads.Keys == t.loads.Keys
    && forall i <- s.loads :: s.loads[i] == t.loads[i] || (s.loads[i].Answered? && t.loads[i].Answered?)
  }

  lemma AlikeStep(s: State, t: State, e: Event, f: Event)
    requires Alike(s, t) && (e == f || (e.Reread? && f.Reread? && e.load == f.load))
    ensures Alike(Step(s, e), Step(t, f))
  {
    hide Seen;
  }

  lemma {:induction false} SameStepsAlike(a: seq<Event>, b: seq<Event>)
    requires SameButRereads(a, b)
    ensures Alike(Run(a), Run(b))
  {
    if a != [] {
      hide Alike, Step;
      var n := |a| - 1;
      SameStepsAlike(a[..n], b[..n]);
      AlikeStep(Run(a[..n]), Run(b[..n]), a[n], b[n]);
    } else {
      assert Alike(COLD, COLD);
    }
  }

  /** The run in which every re-read misses every set. */
  function Blind(events: seq<Event>): (blind: seq<Event>)
    ensures SameButRereads(events, blind)
    ensures forall i :: 0 <= i < |blind| && blind[i].Reread? ==> blind[i].version == 0
  {
    seq(|events|, i requires 0 <= i < |events| =>
      if events[i].Reread? then Reread(events[i].load, 0) else events[i])
  }

  /** Every load that has set its salt answers it, if it has answered. */
  predicate KeepTheirOwn(s: State) {
    forall i :: i in s.past ==> i in s.loads && (s.loads[i].Rereading? || s.loads[i].Died? || s.loads[i] == Answered(i))
  }

  lemma BlindStep(s: State, e: Event)
    requires KeepTheirOwn(s) && (e.Reread? ==> e.version == 0)
    ensures KeepTheirOwn(Step(s, e))
  {
    if e.Set? {
      var t := Step(s, e);
      assert forall x :: x in t.past ==> x in s.past || x == e.load;
    }
  }

  lemma {:induction false} BlindLoadsKeepTheirOwn(events: seq<Event>)
    requires forall i :: 0 <= i < |events| && events[i].Reread? ==> events[i].version == 0
    ensures KeepTheirOwn(Run(events))
  {
    if events != [] {
      hide Step, KeepTheirOwn;
      var n := |events| - 1;
      BlindLoadsKeepTheirOwn(events[..n]);
      BlindStep(Run(events[..n]), events[n]);
    }
  }

  lemma OneSetAgrees(s: State)
    requires Inv(s) && |s.past| <= 1
    ensures AllAgree(s)
  {
    forall i, j | i in s.loads && j in s.loads && s.loads[i].Answered? && s.loads[j].Answered?
      ensures s.loads[i] == s.loads[j]
    {
      hide HasSet;
      assert s.loads[i].salt in s.past && s.loads[j].salt in s.past;
      OnlyOne(s.past, s.loads[i].salt, s.loads[j].salt);
    }
  }

  lemma OnlyOne(past: seq<nat>, x: nat, y: nat)
    requires |past| <= 1 && x in past && y in past
    ensures x == y
  {
    assert x == past[0] && y == past[0];
  }

  /** The loads that have answered agree, whatever the re-reads see. */
  ghost predicate SurelyAgree(events: seq<Event>) {
    forall other :: SameButRereads(events, other) ==> AllAgree(Run(other))
  }

  /** A store whose reads may miss sets guarantees agreement when at most one load has set
      its salt, and, where all loads have answered, only then. */
  lemma AgreementIsSureIffOneSet(events: seq<Event>)
    ensures |Run(events).past| <= 1 ==> SurelyAgree(events)
    ensures AllAnswered(Run(events)) ==> (SurelyAgree(events) <==> |Run(events).past| <= 1)
  {
    hide Run, Inv, AllAgree, KeepTheirOwn, AllAnswered;
    if |Run(events).past| <= 1 {
      forall other | SameButRereads(events, other)
        ensures AllAgree(Run(other))
      {
        SameStepsAlike(events, other);
        RunInv(other);
        OneSetAgrees(Run(other));
      }
    } else if AllAnswered(Run(events)) {
      var blind := Blind(events);
      SameStepsAlike(events, blind);
      AlikeAnswered(Run(events), Run(blind));
      BlindLoadsKeepTheirOwn(blind);
      RunInv(blind);
      TwoSettersDiffer(Run(blind));
      assert SameButRereads(events, blind) && !AllAgree(Run(blind));
    }
  }

  lemma AlikeAnswered(s: State, t: State)
    requires Alike(s, t)
    ensures AllAnswered(s) ==> AllAnswered(t)
  {
  }

  lemma TwoSettersDiffer(s: State)
    requires Inv(s) && AllAnswered(s) && |s.past| >= 2
    requires KeepTheirOwn(s)
    ensures !AllAgree(s)
  {
    var i, j := s.past[0], s.past[1];
    assert i != j && i in s.past && j in s.past;
    assert s.loads[i] == Answered(i) && s.loads[j] == Answered(j);
  }

  /* Two runs. */

  lemma RunSnoc(events: seq<Event>, e: Event)
    ensures Run(events + [e]) == Step(Run(events), e)
  {
    assert (events + [e])[..|events|] == events;
  }

  /** Two cold loads that end up with different salts for the day although every read sees
      the last set: the second is between its read and its set while the first finishes. */
  lemma ConvergenceCanFail()
    ensures var s := Run([Begin(0), Begin(1), Get(0, 0), Get(1, 0), Set(0), Reread(0, 1), Set(1), Reread(1, 2)]);
      && s.loads.Keys == {0, 1} && !s.stale
      && s.loads[0] == Answered(0) && s.loads[1] == Answered(1)
  {
    var e4 := BothColdSetting();
    RunSnoc(e4, Set(0));
    RunSnoc(e4 + [Set(0)], Reread(0, 1));
    RunSnoc(e4 + [Set(0), Reread(0, 1)], Set(1));
    RunSnoc(e4 + [Set(0), Reread(0, 1), Set(1)], Reread(1, 2));
    assert e4 + [Set(0)] + [Reread(0, 1)] == e4 + [Set(0), Reread(0, 1)];
    assert e4 + [Set(0), Reread(0, 1)] + [Set(1)] == e4 + [Set(0), Reread(0, 1), Set(1)];
    assert e4 + [Set(0), Reread(0, 1), Set(1)] + [Reread(1, 2)]
        == [Begin(0), Begin(1), Get(0, 0), Get(1, 0), Set(0), Reread(0, 1), Set(1), Reread(1, 2)];
  }

  /** Two that differ although no set came late: a re-read missed the last one. */
  lemma StaleRereadSplits()
    ensures var s := Run([Begin(0), Begin(1), Get(0, 0), Get(1, 0), Set(0), Set(1), Reread(1, 2), Reread(0, 1)]);
      && s.loads.Keys == {0, 1} && !LateSet(s)
      && s.loads[0] == Answered(0) && s.loads[1] == Answered(1)
  {
    var e4 := BothColdSetting();
    RunSnoc(e4, Set(0));
    RunSnoc(e4 + [Set(0)], Set(1));
    RunSnoc(e4 + [Set(0), Set(1)], Reread(1, 2));
    RunSnoc(e4 + [Set(0), Set(1), Reread(1, 2)], Reread(0, 1));
    assert e4 + [Set(0)] + [Set(1)] == e4 + [Set(0), Set(1)];
    assert e4 + [Set(0), Set(1)] + [Reread(1, 2)] == e4 + [Set(0), Set(1), Reread(1, 2)];
    assert e4 + [Set(0), Set(1), Reread(1, 2)] + [Reread(0, 1)]
        == [Begin(0), Begin(1), Get(0, 0), Get(1, 0), Set(0), Set(1), Reread(1, 2), Reread(0, 1)];
  }

  lemma BothColdSetting() returns (events: seq<Event>)
    ensures events == [Begin(0), Begin(1), Get(0, 0), Get(1, 0)]
    ensures Run(events).past == [] && Run(events).loads.Keys == {0, 1}
    ensures Run(events).loads[0] == Setting && Run(events).loads[1] == Setting
    ensures Run(events).firstAt.None? && !Run(events).stale
  {
    events := [Begin(0), Begin(1), Get(0, 0), Get(1, 0)];
    RunSnoc([], Begin(0));
    RunSnoc([Begin(0)], Begin(1));
    RunSnoc([Begin(0), Begin(1)], Get(0, 0));
    RunSnoc([Begin(0), Begin(1), Get(0, 0)], Get(1, 0));
    assert [] + [Begin(0)] == [Begin(0)];
    assert [Begin(0)] + [Begin(1)] == [Begin(0), Begin(1)];
    assert [Begin(0), Begin(1)] + [Get(0, 0)] == [Begin(0), Begin(1), Get(0, 0)];
    assert [Begin(0), Begin(1), Get(0, 0)] + [Get(1, 0)] == events;
    assert Run([]) == COLD;
  }
}
