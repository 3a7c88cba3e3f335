/** The pacing of throttled auth calls: at most five reservations of a route in any
    sixty seconds, waiting when the trailing window is full. */
module AuthPacing {
  import opened IntRange

  const LIMIT := 5
  const WINDOW_MS := 60_000
  const MARGIN_MS := 1_500

  datatype Route = Register | Login | TwoFactorVerify

  /** A clock that never goes back. What it does between the reads is scripted: how
      far each read has moved on, and how late or, by no more than the margin, how
      early each timer fires. */
  class Clock {
    var now: int
    var ticks: seq<nat>
    var lateness: seq<int>

    constructor (start: int, ticks: seq<nat>, lateness: seq<int>)
      ensures now == start
    {
      now := start;
      this.ticks := ticks;
      this.lateness := lateness;
    }

    method Now() returns (t: int)
      modifies this
      ensures old(now) <= now == t
    {
      if ticks != [] {
        now := now + ticks[0];
        ticks := ticks[1..];
      }
      t := now;
    }

    method Sleep(ms: int)
      modifies this
      ensures now >= old(now) && now >= old(now) + ms - 1_500
    {
      var late := if lateness == [] || lateness[0] < -MARGIN_MS then 0 else lateness[0];
      if lateness != [] {
        lateness := lateness[1..];
      }
      if ms + late > 0 {
        now := now + ms + late;
      }
    }
  }

  predicate Sorted(ts: seq<int>) {
    forall i, j :: 0 <= i < j < |ts| ==> ts[i] <= ts[j]
  }

  /** A grant is at least a window later than the fifth one before it. */
  predicate Spaced(ts: seq<int>) {
    forall i :: 0 <= i < |ts| - LIMIT ==> ts[i] + WINDOW_MS <= ts[i + LIMIT]
  }

  /** The grants that fall in a window of sixty seconds. */
  function GrantsIn(ts: seq<int>, from: int): set<int> {
    set i | 0 <= i < |ts| && from <= ts[i] < from + 60_000
  }

  /** Spaced grants never exceed the limit in any window. */
  lemma AnyWindowIsWithinLimit(ts: seq<int>, from: int)
    requires Sorted(ts) && Spaced(ts)
    ensures |GrantsIn(ts, from)| <= 5
  {
    var inside := GrantsIn(ts, from);
    if inside != {} {
      var first := FirstIn(ts, from, 0);
      if first + LIMIT < |ts| {
        assert ts[first] + WINDOW_MS <= ts[first + LIMIT];
      }
      SubsetSize(inside, Range(first, first + LIMIT));
    }
  }

  function FirstIn(ts: seq<int>, from: int, start: nat): (first: nat)
    requires exists i :: start <= i < |ts| && i in GrantsIn(ts, from)
    requires forall i :: 0 <= i < start ==> i !in GrantsIn(ts, from)
    ensures first in GrantsIn(ts, from)
    ensures forall i :: 0 <= i < first ==> i !in GrantsIn(ts, from)
    decreases |ts| - start
  {
    if start in GrantsIn(ts, from) then start else FirstIn(ts, from, start + 1)
  }

  /** What a route has seen: every grant, how many of them its queue has dropped,
      and the last time it looked at the clock. */
  datatype Log = Log(granted: seq<int>, dropped: nat, seenAt: int)

  /** A route's queue is its grants minus some that have left the window. */
  ghost predicate Consistent(queue: seq<int>, log: Log) {
    && Sorted(log.granted) && Spaced(log.granted)
    && log.dropped <= |log.granted|
    && queue == log.granted[log.dropped..]
    && |queue| <= LIMIT
    && (forall i :: 0 <= i < log.dropped ==> log.granted[i] + WINDOW_MS <= log.seenAt)
    && (forall i :: 0 <= i < |log.granted| ==> log.granted[i] <= log.seenAt)
  }

  /** The queue holds exactly the grants of the window ending at `now`. */
  ghost predicate ExactlyRecent(log: Log, now: int) {
    forall i :: 0 <= i < |log.granted| ==> (i >= log.dropped <==> now < log.granted[i] + 60_000)
  }

  lemma LookAgain(queue: seq<int>, log: Log, now: int)
    requires Consistent(queue, log) && log.seenAt <= now
    ensures Consistent(queue, log.(seenAt := now)) && |queue| <= LIMIT
  {
  }

  lemma DropHead(queue: seq<int>, log: Log)
    requires Consistent(queue, log)
    requires queue != [] && queue[0] + WINDOW_MS <= log.seenAt
    ensures Consistent(queue[1..], log.(dropped := log.dropped + 1))
  {
    assert log.granted[log.dropped] == queue[0];
  }

  /** With room in the queue, one more grant keeps the spacing, because the fifth
      grant before it has left the window. */
  lemma GrantStaysSpaced(queue: seq<int>, log: Log)
    requires Consistent(queue, log) && |queue| < LIMIT
    ensures Consistent(queue + [log.seenAt], log.(granted := log.granted + [log.seenAt]))
  {
    var all := log.granted + [log.seenAt];
    assert all[log.dropped..] == queue + [log.seenAt];
    assert Sorted(all);
    assert Spaced(all);
  }

  /** With the head inside the window, the queue is exactly the window's grants. */
  lemma GrantIsRecent(queue: seq<int>, log: Log)
    requires Consistent(queue, log)
    requires queue != [] ==> log.seenAt < queue[0] + WINDOW_MS
    ensures ExactlyRecent(log.(granted := log.granted + [log.seenAt]), log.seenAt)
  {
    var all := log.granted + [log.seenAt];
    forall i | log.dropped <= i < |all|
      ensures log.seenAt < all[i] + WINDOW_MS
    {
      if i < |log.granted| {
        assert queue[0] == log.granted[log.dropped] <= log.granted[i];
      }
    }
  }

  class Pacer {
    const clock: Clock
    var times: map<Route, seq<int>>
    ghost var logs: map<Route, Log>

    ghost predicate Valid()
      reads this, clock
    {
      forall route: Route ::
        route in times && route in logs && Consistent(times[route], logs[route]) && logs[route].seenAt <= clock.now
    }

    constructor (clock: Clock)
      ensures Valid() && this.clock == clock
      ensures forall route: Route :: route in logs && logs[route].granted == []
    {
      this.clock := clock;
      times := map[Register := [], Login := [], TwoFactorVerify := []];
      ghost var none := Log([], 0, clock.now);
      logs := map[Register := none, Login := none, TwoFactorVerify := none];
      new;
      forall route: Route
        ensures route in times && route in logs
      {
        match route
        case Register =>
        case Login =>
        case TwoFactorVerify =>
      }
    }

    /** Drops the calls that have aged out of the window that ends now. */
    method DropAged(route: Route, now: int)
      requires Valid() && logs[route].seenAt <= now <= clock.now
      modifies this
      ensures Valid()
      ensures times == old(times)[route := times[route]]
      ensures logs == old(logs)[route := logs[route]]
      ensures logs[route].granted == old(logs)[route].granted && logs[route].seenAt == now
      ensures |times[route]| <= |old(times)[route]| && |times[route]| <= LIMIT
      ensures times[route] != [] ==> now < times[route][0] + WINDOW_MS
      ensures |times[route]| == LIMIT ==> times[route] == old(times)[route]
    {
      hide Consistent;
      LookAgain(times[route], logs[route], now);
      logs := logs[route := logs[route].(seenAt := now)];
      while |times[route]| > 0 && now - times[route][0] >= WINDOW_MS
        invariant Valid()
        invariant times == old(times)[route := times[route]]
        invariant logs == old(logs)[route := logs[route]]
        invariant logs[route].granted == old(logs)[route].granted && logs[route].seenAt == now
        invariant |times[route]| <= |old(times)[route]| && |times[route]| <= LIMIT
        invariant |times[route]| == LIMIT ==> times[route] == old(times)[route]
        decreases |times[route]|
      {
        DropHead(times[route], logs[route]);
        times := times[route := times[route][1..]];
        logs := logs[route := logs[route].(dropped := logs[route].dropped + 1)];
      }
    }

    method Claim(route: Route, at: int)
      requires Valid() && logs[route].seenAt == at && |times[route]| < LIMIT
      requires times[route] != [] ==> at < times[route][0] + WINDOW_MS
      modifies this
      ensures Valid() && ExactlyRecent(logs[route], at)
      ensures times == old(times)[route := old(times)[route] + [at]]
      ensures logs == old(logs)[route := old(logs)[route].(granted := old(logs)[route].granted + [at])]
    {
      hide Consistent, ExactlyRecent;
      GrantStaysSpaced(times[route], logs[route]);
      GrantIsRecent(times[route], logs[route]);
      times := times[route := times[route] + [at]];
      logs := logs[route := logs[route].(granted := logs[route].granted + [at])];
    }

    /** One reservation. The grant is stamped `at`; the queue then holds exactly the
        grants of the window ending there; nobody waits unless five grants were
        still in the window, and nobody waits twice. */
    method ReserveOne(route: Route) returns (at: int, sleeps: nat)
      requires Valid()
      modifies this, clock
      ensures Valid()
      ensures old(clock.now) <= at == clock.now
      ensures logs == old(logs)[route := logs[route]] && times == old(times)[route := times[route]]
      ensures logs[route].granted == old(logs)[route].granted + [at]
      ensures ExactlyRecent(logs[route], at)
      ensures sleeps <= 1
      ensures sleeps == 1 ==> |old(times)[route]| == 5 && old(times)[route][0] + 60_000 <= at
    {
      hide Consistent, ExactlyRecent;
      sleeps := 0;
      while true
        invariant Valid()
        invariant times == old(times)[route := old(times)[route]]
        invariant logs == old(logs)[route := logs[route]]
        invariant logs[route].granted == old(logs)[route].granted
        invariant old(clock.now) <= clock.now && sleeps <= 1
        invariant sleeps == 1 ==> |times[route]| == LIMIT && times[route][0] + WINDOW_MS <= clock.now
        decreases 1 - sleeps
      {
        at := clock.Now();
        DropAged(route, at);
        if |times[route]| < LIMIT {
          Claim(route, at);
          return;
        }
        var wait := times[route][0] + WINDOW_MS - at + MARGIN_MS;
        clock.Sleep(wait);
        sleeps := sleeps + 1;
      }
    }

    /** `count` reservations of a route, each chained after the one before. */
    method ReserveAuthSlots(route: Route, count: nat) returns (tail: seq<int>)
      requires Valid()
      modifies this, clock
      ensures Valid() && |tail| == count
      ensures logs == old(logs)[route := logs[route]]
      ensures logs[route].granted == old(logs)[route].granted + tail
      ensures forall i :: 0 <= i < count ==> old(clock.now) <= tail[i] <= clock.now
    {
      hide Consistent, ExactlyRecent;
      tail := [];
      var i := 0;
      while i < count
        invariant 0 <= i <= count && |tail| == i
        invariant Valid() && old(clock.now) <= clock.now
        invariant logs == old(logs)[route := logs[route]]
        invariant logs[route].granted == old(logs)[route].granted + tail
        invariant forall i :: 0 <= i < |tail| ==> old(clock.now) <= tail[i] <= clock.now
      {
        var at, _ := ReserveOne(route);
        tail := tail + [at];
        i := i + 1;
      }
    }

    /** At any moment, whatever has been reserved, no sixty-second window of a route
        holds more than five grants. */
    lemma EveryWindowIsWithinLimit(route: Route, from: int)
      requires Valid()
      ensures |GrantsIn(logs[route].granted, from)| <= 5
    {
      AnyWindowIsWithinLimit(logs[route].granted, from);
    }
  }
}
