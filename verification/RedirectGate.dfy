/** The gate of the redirect handler: the lifecycle verdict from the resolved link,
    and the reservation that decides the click limit. */
module RedirectGate {
  import opened Options
  import opened IntRange
  import ClickReservation

  datatype Gate = Disabled | NotActive | Archived | Flagged | Expired | ClickLimit | Scheduled

  /** The fields of a resolved link the gate reads; `clicks` is the rollup's count,
      as old as the cached link is. */
  datatype ResolvedLink = ResolvedLink(
    disabled: bool,
    ownerUnverified: bool,
    archived: bool,
    flagged: bool,
    expiresAt: Option<int>,
    activatesAt: Option<int>,
    clickLimit: Option<int>,
    clicks: int)

  function LifecycleGate(link: ResolvedLink, now: int): Option<Gate> {
    if link.archived then Some(Archived)
    else if link.expiresAt.Some? && link.expiresAt.value <= now then Some(Expired)
    else if link.clickLimit.Some? && link.clicks >= link.clickLimit.value then Some(ClickLimit)
    else if link.activatesAt.Some? && link.activatesAt.value > now then Some(Scheduled)
    else None
  }

  function EffectiveGate(link: ResolvedLink, now: int): Option<Gate> {
    if link.disabled then Some(Disabled)
    else if link.ownerUnverified then Some(NotActive)
    else if link.archived then Some(Archived)
    else if link.flagged then Some(Flagged)
    else LifecycleGate(link, now)
  }

  /** What each verdict says of the link. */
  predicate Applies(gate: Gate, link: ResolvedLink, now: int) {
    match gate
    case Disabled => link.disabled
    case NotActive => link.ownerUnverified
    case Archived => link.archived
    case Flagged => link.flagged
    case Expired => link.expiresAt.Some? && now >= link.expiresAt.value
    case ClickLimit => link.clickLimit.Some? && link.clicks >= link.clickLimit.value
    case Scheduled => link.activatesAt.Some? && now < link.activatesAt.value
  }

  /** The order in which the verdicts are given. */
  function Precedence(gate: Gate): nat {
    match gate
    case Disabled => 0
    case NotActive => 1
    case Archived => 2
    case Flagged => 3
    case Expired => 4
    case ClickLimit => 5
    case Scheduled => 6
  }

  /** A link is blocked exactly when some verdict applies to it, and by the first of them. */
  lemma BlockedByTheFirstThatApplies(link: ResolvedLink, now: int)
    ensures EffectiveGate(link, now).None? <==> forall gate :: !Applies(gate, link, now)
    ensures forall gate :: EffectiveGate(link, now) == Some(gate) <==>
      Applies(gate, link, now) && forall other :: Applies(other, link, now) ==> Precedence(gate) <= Precedence(other)
  {
    var given := EffectiveGate(link, now);
    assert given.Some? ==> Applies(given.value, link, now);
    forall gate | Applies(gate, link, now)
      ensures EffectiveGate(link, now).Some? && Precedence(EffectiveGate(link, now).value) <= Precedence(gate)
    {
    }
    assert forall a, b :: Precedence(a) == Precedence(b) ==> a == b;
  }

  datatype Reservation = Answered(ok: bool) | Unavailable

  /** The counter row behind a reservation, one statement at a time. */
  class Counter {
    var row: Option<ClickReservation.Row>

    constructor (row: Option<ClickReservation.Row>)
      ensures this.row == row
    {
      this.row := row;
    }

    /** The upsert: seed a missing row when the limit allows one click, otherwise
        increment while reserved < limit. */
    method Reserve(limit: int) returns (ok: bool)
      modifies this
      ensures ok <==> limit >= 1 && ClickReservation.Reserved(old(row)) < limit
      ensures !ok ==> row == old(row)
      ensures ok ==> row == Some(ClickReservation.Row(
        if old(row).Some? then old(row).value.clicks else 0, ClickReservation.Reserved(old(row)) + 1))
    {
      if limit < 1 {
        return false;
      }
      if row.None? {
        row := Some(ClickReservation.Row(0, 1));
        return true;
      }
      if row.value.reserved < limit {
        row := Some(row.value.(reserved := row.value.reserved + 1));
        return true;
      }
      return false;
    }
  }

  /** The handler asks for a reservation. */
  predicate Reserves(link: ResolvedLink, now: int) {
    var blocked := EffectiveGate(link, now);
    link.clickLimit.Some? && (blocked.None? || blocked == Some(ClickLimit))
  }

  /** The handler's verdict, given what a reservation answers if it asks for one. */
  function Verdict(link: ResolvedLink, now: int, reservation: Reservation): Option<Gate> {
    if Reserves(link, now) && reservation.Answered? then (if reservation.ok then None else Some(ClickLimit))
    else EffectiveGate(link, now)
  }

  /** The gate part of the handler, spending a reservation on the counter; without
      one the profile has no reservations. */
  method HandleGate(link: ResolvedLink, now: int, counter: Counter?) returns (blocked: Option<Gate>)
    modifies counter
    ensures counter == null ==> blocked == Verdict(link, now, Unavailable)
    ensures counter != null && Reserves(link, now) ==>
      && blocked == Verdict(link, now, Answered(counter.row != old(counter.row)))
      && (counter.row != old(counter.row) ==>
            ClickReservation.Reserved(counter.row) == ClickReservation.Reserved(old(counter.row)) + 1
            && ClickReservation.Reserved(counter.row) <= link.clickLimit.value)
    ensures counter != null && !Reserves(link, now) ==>
      blocked == EffectiveGate(link, now) && counter.row == old(counter.row)
  {
    blocked := EffectiveGate(link, now);
    if link.clickLimit.Some? && (blocked.None? || blocked == Some(ClickLimit)) {
      if counter != null {
        var ok := counter.Reserve(link.clickLimit.value);
        blocked := if ok then None else Some(ClickLimit);
      }
    }
  }

  /* The hard cap. */

  /** An answered reservation as the handler sees it; one that failed, or whose answer was
      lost, throws. */
  function AnswerOf(call: ClickReservation.Call): Option<Reservation> {
    match call.phase
    case Granted(_) => Some(Answered(true))
    case Refused => Some(Answered(false))
    case _ => None
  }

  /** One request for the link: the copy it resolved, and when its gate ran. */
  datatype Visit = Visit(link: ResolvedLink, now: int)

  /** The request gets past the gate: without asking for a reservation, or on the verdict
      that an answered one leaves. */
  predicate Passes(s: ClickReservation.State, id: nat, visit: Visit) {
    if !Reserves(visit.link, visit.now) then EffectiveGate(visit.link, visit.now).None?
    else
      id in s.calls && AnswerOf(s.calls[id]).Some?
      && Verdict(visit.link, visit.now, AnswerOf(s.calls[id]).value).None?
  }

  /** A limited link is never let through without asking for a reservation. */
  lemma LimitedNeedsReservation(link: ResolvedLink, now: int)
    requires link.clickLimit.Some?
    ensures EffectiveGate(link, now).None? ==> Reserves(link, now)
  {
  }

  /** A request for a limited link gets past the gate exactly when it asked for a
      reservation and was granted one. */
  lemma LimitedPassesIffGranted(s: ClickReservation.State, id: nat, visit: Visit)
    requires visit.link.clickLimit.Some?
    ensures Passes(s, id, visit) <==>
      Reserves(visit.link, visit.now) && id in s.calls && s.calls[id].phase.Granted?
  {
    LimitedNeedsReservation(visit.link, visit.now);
  }

  /** The visitors who passed on a cached copy with a click limit of at most `limit`. */
  function PassedWithin(s: ClickReservation.State, visits: map<nat, Visit>, limit: int): set<nat> {
    set id <- visits | Passes(s, id, visits[id])
      && visits[id].link.clickLimit.Some? && visits[id].link.clickLimit.value <= limit
  }

  /** Each call carries the limit of its own visit's cached copy. */
  predicate CarriesCopiedLimits(s: ClickReservation.State, visits: map<nat, Visit>) {
    forall id <- visits :: id in s.calls && visits[id].link.clickLimit.Some? ==>
      s.calls[id].limit == visits[id].link.clickLimit.value
  }

  /** In every interleaving, from any counter, and whatever counts and limits the visits'
      cached copies carry: of those whose copy has a limit of at most L, at most L less what
      was reserved before pass. */
  lemma AtMostLimitPass(start: Option<ClickReservation.Row>, events: seq<ClickReservation.Event>,
                        visits: map<nat, Visit>, limit: int)
    requires CarriesCopiedLimits(ClickReservation.Run(start, events), visits)
    ensures |PassedWithin(ClickReservation.Run(start, events), visits, limit)|
         <= Max(0, limit - ClickReservation.Reserved(start))
  {
    var s := ClickReservation.Run(start, events);
    var spent := set id <- s.calls | ClickReservation.Spent(s.calls[id].phase) && s.calls[id].limit <= limit;
    ClickReservation.GrantsStayWithinLimit(start, events, limit, spent);
    forall id | id in PassedWithin(s, visits, limit)
      ensures id in spent
    {
      LimitedNeedsReservation(visits[id].link, visits[id].now);
      PassingNeedsGrant(visits[id].link, visits[id].now, AnswerOf(s.calls[id]).value);
    }
    SubsetSize(PassedWithin(s, visits, limit), spent);
  }

  /** On a profile with reservations a limited link passes only on a grant. */
  lemma PassingNeedsGrant(link: ResolvedLink, now: int, reservation: Reservation)
    requires link.clickLimit.Some? && reservation.Answered?
    ensures Verdict(link, now, reservation).None? ==> reservation.ok
  {
  }

  /* The documented precedence. */

  /** What the handler's comment promises: every other gate, scheduled included,
      comes first and spends nothing; only then does the reservation decide. */
  function Documented(link: ResolvedLink, now: int, reservation: Reservation): (Option<Gate>, bool)
    requires link.clickLimit.Some? && reservation.Answered?
  {
    var other := EffectiveGate(link.(clickLimit := None), now);
    if other.Some? then (other, false)
    else (if reservation.ok then None else Some(ClickLimit), true)
  }

  /** The link is not live yet and its cached count has reached the limit. */
  predicate ScheduledAtLimit(link: ResolvedLink, now: int) {
    && EffectiveGate(link.(clickLimit := None), now) == Some(Scheduled)
    && link.clickLimit.Some? && link.clicks >= link.clickLimit.value
  }

  /** The code keeps that promise exactly when the link is not a scheduled one whose
      cached count has reached the limit: there the cached click_limit hides
      `scheduled`, a reservation is spent, and if it is granted the visitor passes
      before the activation date. */
  lemma PrecedenceHoldsUnlessScheduledAtLimit(link: ResolvedLink, now: int, reservation: Reservation)
    requires link.clickLimit.Some? && reservation.Answered?
    ensures (Verdict(link, now, reservation), Reserves(link, now)) == Documented(link, now, reservation)
      <==> !ScheduledAtLimit(link, now)
    ensures ScheduledAtLimit(link, now) ==>
      Reserves(link, now) && (Verdict(link, now, reservation).None? <==> reservation.ok)
  {
  }
}
